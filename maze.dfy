/**
  The Sokoban maze: a jagged grid of tiles together with the player's starting
  position and the crates' starting and ending positions, with the maze's
  breadth-first queries (whether a walker can reach a cell, and a shortest walk
  to it) and the two displacement passes that annotate every tile a pass
  reaches with its distance to the nearest crate start and to the nearest
  crate target; the other tiles keep their annotations.
 */
module Mazes {
  import opened Wrappers
  import opened Board
  import opened Traversal
  import opened Rules
  import opened Displacement


  /**
    The inner loop of the walker's reachability search: goes through the
    neighbours in order and stops at the first one not seen yet that is the
    target; every other unseen neighbour joins the back of the frontier and the
    seen set.
   */
  method VisitNeighbors(neighbors: seq<Position>, target: Position, frontier: seq<Position>, interior: set<Position>)
    returns (hit: bool, frontier': seq<Position>, interior': set<Position>)
    ensures hit <==> target in neighbors && target !in interior
    ensures !hit ==> interior' == interior + SeedSet(neighbors)
    ensures !hit ==> frontier' == frontier + Fresh(neighbors, interior)
    ensures !hit ==> |interior'| - |interior| == |frontier'| - |frontier|
  {
    frontier', interior' := frontier, interior;
    var i := 0;
    while i < |neighbors|
      invariant 0 <= i <= |neighbors|
      invariant interior' == interior + SeedSet(neighbors[..i])
      invariant target !in neighbors[..i] || target in interior
      invariant frontier' == frontier + Fresh(neighbors[..i], interior)
    {
      var neighbor := neighbors[i];
      FreshStep(neighbors, i, interior, interior');
      if neighbor !in interior' {
        if neighbor == target {
          return true, frontier', interior';
        }
        assert frontier' + [neighbor] == frontier + (Fresh(neighbors[..i], interior) + [neighbor]);
        frontier' := frontier' + [neighbor];
        interior' := interior' + {neighbor};
      }
      i := i + 1;
    }
    assert neighbors[..i] == neighbors;
    FreshCard(neighbors, interior);
    return false, frontier', interior';
  }

  /**
    The state of the walker's reachability search after the source has been
    expanded: every seen cell is reached, every seen cell that has left the
    frontier has all its moves seen, and the target has not been seen.
   */
  ghost predicate WalkSearch(m: Moves, source: Position, target: Position, frontier: seq<Position>, interior: set<Position>) {
    source in interior &&
    (forall i :: 0 <= i < |frontier| ==> frontier[i] in interior) &&
    (forall q :: q in interior ==> Reached(m, {source}, q)) &&
    (forall u :: u in interior && u !in frontier ==> Closed(m, u, interior)) &&
    (target in interior ==> target == source)
  }

  /** One round of the outer loop keeps the search state. */
  lemma WalkSearchStep(m: Moves, source: Position, target: Position, frontier0: seq<Position>, interior0: set<Position>,
                       neighbors: seq<Position>, frontier': seq<Position>, interior': set<Position>)
    requires frontier0 != []
    requires WalkSearch(m, source, target, frontier0, interior0) || (interior0 == {} && frontier0 == [source])
    requires Reached(m, {source}, source)
    requires neighbors == m(frontier0[0])
    requires target !in neighbors || target in interior0 + {frontier0[0]}
    requires interior' == interior0 + {frontier0[0]} + SeedSet(neighbors)
    requires frontier' == frontier0[1..] + Fresh(neighbors, interior0 + {frontier0[0]})
    ensures WalkSearch(m, source, target, frontier', interior')
  {
    var current := frontier0[0];
    var added := Fresh(neighbors, interior0 + {current});
    FreshMembers(neighbors, interior0 + {current});
    assert Reached(m, {source}, current);
    forall q | q in neighbors ensures Reached(m, {source}, q) {
      ReachedStep(m, {source}, current, q);
    }
    forall i | 0 <= i < |frontier'| ensures frontier'[i] in interior' {
      if i < |frontier0| - 1 {
        assert frontier'[i] == frontier0[1..][i];
      } else {
        assert frontier'[i] == added[i - (|frontier0| - 1)];
      }
    }
    WalkSearchClosed(m, neighbors, frontier0, interior0, frontier', interior');
  }

  /**
    One round of the walker's reachability search keeps its loop invariants
    and makes progress: more cells seen, or as many seen and a shorter frontier.
   */
  lemma WalkRound(g: Grid, obstacles: seq<Position>, source: Position, target: Position, frontier0: seq<Position>,
                  interior0: set<Position>, neighbors: seq<Position>, frontier': seq<Position>, interior': set<Position>)
    requires frontier0 != []
    requires forall q :: q in interior0 ==> q == source || Valid(g, q)
    requires WalkSearch(MovesOf(g, Walk(obstacles)), source, target, frontier0, interior0) || (interior0 == {} && frontier0 == [source])
    requires Reached(MovesOf(g, Walk(obstacles)), {source}, source)
    requires neighbors == Neighbors(g, frontier0[0], obstacles)
    requires target !in neighbors || target in interior0 + {frontier0[0]}
    requires interior' == interior0 + {frontier0[0]} + SeedSet(neighbors)
    requires frontier' == frontier0[1..] + Fresh(neighbors, interior0 + {frontier0[0]})
    requires |interior'| - |interior0 + {frontier0[0]}| == |frontier'| - |frontier0[1..]|
    ensures forall q :: q in interior' ==> q == source || Valid(g, q)
    ensures WalkSearch(MovesOf(g, Walk(obstacles)), source, target, frontier', interior')
    ensures |interior'| > |interior0| || (|interior'| == |interior0| && |frontier'| < |frontier0|)
  {
    WalkSearchStep(MovesOf(g, Walk(obstacles)), source, target, frontier0, interior0, neighbors, frontier', interior');
    CardAddOne(interior0, frontier0[0]);
    assert frontier0[0] == source || frontier0[0] in interior0;
    forall q | q in SeedSet(neighbors) ensures Valid(g, q) {
      assert q in neighbors;
    }
  }

  /** After one round, every seen cell that has left the frontier has all its moves seen. */
  lemma WalkSearchClosed(m: Moves, neighbors: seq<Position>, frontier0: seq<Position>, interior0: set<Position>,
                         frontier': seq<Position>, interior': set<Position>)
    requires frontier0 != [] && neighbors == m(frontier0[0])
    requires forall u :: u in interior0 && u !in frontier0 ==> Closed(m, u, interior0)
    requires interior' == interior0 + {frontier0[0]} + SeedSet(neighbors)
    requires frontier' == frontier0[1..] + Fresh(neighbors, interior0 + {frontier0[0]})
    ensures forall u :: u in interior' && u !in frontier' ==> Closed(m, u, interior')
  {
    FreshMembers(neighbors, interior0 + {frontier0[0]});
    assert forall k :: 1 <= k < |frontier0| ==> frontier0[k] == frontier'[k - 1];
  }

  // ---------------------------------------------------------------- the shortest-walk search

  /**
    The inner loop of the shortest-walk search: every neighbour not expanded
    yet gets `current` as its predecessor, replacing any earlier one; the first
    such neighbour that is the target stops the loop, and every other one joins
    the back of the frontier, in the order of `neighbors`.
   */
  method RecordNeighbors(neighbors: seq<Position>, current: Position, target: Position,
                         frontier: seq<Position>, interior: set<Position>, previous: map<Position, Position>)
    returns (found: bool, frontier': seq<Position>, previous': map<Position, Position>)
    ensures found <==> target in neighbors && target !in interior
    ensures found ==> target in previous' && previous'[target] == current
    ensures frontier' == frontier + Unexpanded(if found then Before(neighbors, target) else neighbors, interior)
    ensures forall j :: 0 <= j < |neighbors| && neighbors[j] !in interior && (target !in neighbors[..j] || target in interior) ==>
              neighbors[j] in previous' && previous'[neighbors[j]] == current
    ensures |frontier'| >= |frontier| && frontier'[..|frontier|] == frontier
    ensures forall i :: |frontier| <= i < |frontier'| ==>
              frontier'[i] in neighbors && frontier'[i] !in interior && frontier'[i] != target && frontier'[i] in previous'
    ensures !found ==> forall q :: q in neighbors && q !in interior ==> q in frontier'[|frontier|..]
    ensures previous.Keys <= previous'.Keys
    ensures forall v :: v in previous' ==>
              (v in previous && previous'[v] == previous[v]) || (v in (if found then Before(neighbors, target) + [target] else neighbors) && v !in interior && previous'[v] == current)
  {
    frontier', previous' := frontier, previous;
    ghost var probed: set<Position> := {};
    var i := 0;
    while i < |neighbors|
      invariant Recording(neighbors, i, current, target, frontier, interior, previous, probed, frontier', previous')
    {
      var neighbor := neighbors[i];
      if neighbor !in interior {
        ghost var previous0 := previous';
        previous' := previous'[neighbor := current];
        if neighbor == target {
          RecordDone(neighbors, i, true, current, target, frontier, interior, previous, probed, previous0, frontier', previous');
          return true, frontier', previous';
        }
        RecordStep(neighbors, i, current, target, frontier, interior, previous, probed, frontier', previous0);
        frontier' := frontier' + [neighbor];
      } else {
        RecordStep(neighbors, i, current, target, frontier, interior, previous, probed, frontier', previous');
      }
      probed := probed + {neighbor};
      i := i + 1;
    }
    RecordDone(neighbors, i, false, current, target, frontier, interior, previous, probed, previous', frontier', previous');
    return false, frontier', previous';
  }

  /**
    What `RecordNeighbors` keeps after probing the first `i` neighbours: the
    target is not among them unless it was expanded already, the frontier has
    grown by the unexpanded ones in order, each of those points to `current`,
    and no other predecessor entry has changed.
   */
  ghost predicate Recording(neighbors: seq<Position>, i: nat, current: Position, target: Position, frontier: seq<Position>,
                            interior: set<Position>, previous: map<Position, Position>, probed: set<Position>,
                            frontier': seq<Position>, previous': map<Position, Position>) {
    i <= |neighbors| &&
    (target !in neighbors[..i] || target in interior) &&
    frontier' == frontier + Unexpanded(neighbors[..i], interior) &&
    probed == SeedSet(neighbors[..i]) &&
    (forall j :: 0 <= j < i && neighbors[j] !in interior ==> neighbors[j] in previous' && previous'[neighbors[j]] == current) &&
    previous.Keys <= previous'.Keys &&
    (forall v :: v in previous' ==>
       (v in previous && previous'[v] == previous[v]) || (v in probed && v !in interior && previous'[v] == current))
  }

  /** Probing one more neighbour other than an unexpanded target keeps `Recording`. */
  lemma RecordStep(neighbors: seq<Position>, i: nat, current: Position, target: Position, frontier: seq<Position>,
                   interior: set<Position>, previous: map<Position, Position>, probed: set<Position>,
                   frontier': seq<Position>, previous': map<Position, Position>)
    requires i < |neighbors| && (neighbors[i] !in interior ==> neighbors[i] != target)
    requires Recording(neighbors, i, current, target, frontier, interior, previous, probed, frontier', previous')
    ensures Recording(neighbors, i + 1, current, target, frontier, interior, previous, probed + {neighbors[i]},
                      if neighbors[i] in interior then frontier' else frontier' + [neighbors[i]],
                      if neighbors[i] in interior then previous' else previous'[neighbors[i] := current])
  {
    UnexpandedStep(neighbors, i, interior);
    SeedSetStep(neighbors, i);
    assert neighbors[..i + 1] == neighbors[..i] + [neighbors[i]];
  }

  /**
    The contract of `RecordNeighbors` at either exit: after meeting the
    unexpanded target at index `i` and recording it, or after probing every
    neighbour.
   */
  lemma RecordDone(neighbors: seq<Position>, i: nat, found: bool, current: Position, target: Position,
                   frontier: seq<Position>, interior: set<Position>, previous: map<Position, Position>,
                   probed: set<Position>, previous0: map<Position, Position>,
                   frontier': seq<Position>, previous': map<Position, Position>)
    requires Recording(neighbors, i, current, target, frontier, interior, previous, probed, frontier', previous0)
    requires found ==> i < |neighbors| && neighbors[i] == target && target !in interior && previous' == previous0[target := current]
    requires !found ==> i == |neighbors| && previous' == previous0
    ensures found <==> target in neighbors && target !in interior
    ensures found ==> target in previous' && previous'[target] == current
    ensures frontier' == frontier + Unexpanded(if found then Before(neighbors, target) else neighbors, interior)
    ensures forall j :: 0 <= j < |neighbors| && neighbors[j] !in interior && (target !in neighbors[..j] || target in interior) ==>
              neighbors[j] in previous' && previous'[neighbors[j]] == current
    ensures |frontier'| >= |frontier| && frontier'[..|frontier|] == frontier
    ensures forall i :: |frontier| <= i < |frontier'| ==>
              frontier'[i] in neighbors && frontier'[i] !in interior && frontier'[i] != target && frontier'[i] in previous'
    ensures !found ==> forall q :: q in neighbors && q !in interior ==> q in frontier'[|frontier|..]
    ensures previous.Keys <= previous'.Keys
    ensures forall v :: v in previous' ==>
              (v in previous && previous'[v] == previous[v]) || (v in (if found then Before(neighbors, target) + [target] else neighbors) && v !in interior && previous'[v] == current)
  {
    QueuedShape(neighbors, i, current, target, frontier, interior, previous0, frontier');
    if found {
      BeforeAt(neighbors, target, i);
      forall j | i < j <= |neighbors| ensures target in neighbors[..j] {
        assert neighbors[..j][i] == target;
      }
    } else {
      assert neighbors[..i] == neighbors;
    }
  }

  /** What the frontier and the predecessors of `RecordNeighbors` say about the cells it queued. */
  lemma QueuedShape(neighbors: seq<Position>, i: nat, current: Position, target: Position, frontier: seq<Position>,
                    interior: set<Position>, previous': map<Position, Position>, frontier': seq<Position>)
    requires i <= |neighbors|
    requires target !in neighbors[..i] || target in interior
    requires frontier' == frontier + Unexpanded(neighbors[..i], interior)
    requires forall j :: 0 <= j < i && neighbors[j] !in interior ==> neighbors[j] in previous' && previous'[neighbors[j]] == current
    ensures |frontier'| >= |frontier| && frontier'[..|frontier|] == frontier
    ensures forall k :: |frontier| <= k < |frontier'| ==>
              frontier'[k] in neighbors && frontier'[k] !in interior && frontier'[k] != target && frontier'[k] in previous'
    ensures forall q :: q in neighbors[..i] && q !in interior ==> q in frontier'[|frontier|..]
  {
    UnexpandedMembers(neighbors[..i], interior);
    assert frontier'[|frontier|..] == Unexpanded(neighbors[..i], interior);
    forall k | |frontier| <= k < |frontier'|
      ensures frontier'[k] in neighbors && frontier'[k] !in interior && frontier'[k] != target && frontier'[k] in previous'
    {
      var q := frontier'[k];
      assert q == frontier'[|frontier|..][k - |frontier|];
      assert q in neighbors[..i];
      var j :| 0 <= j < |neighbors[..i]| && neighbors[..i][j] == q;
      assert neighbors[j] == q;
    }
  }

  /**
    What the shortest-walk search knows about expanded cells and predecessors:
    `dist` records every expanded cell's distance from the source; every
    recorded predecessor was expanded, is one move before its cell and one
    layer nearer the source; every expanded cell but the source has one.
   */
  ghost predicate Predecessors(m: Moves, source: Position, Dist: (Position, nat) -> bool, interior: set<Position>,
                               dist: map<Position, nat>, previous: map<Position, Position>) {
    dist.Keys == interior &&
    (forall u :: u in dist ==> Dist(u, dist[u])) &&
    (forall v :: v in previous ==>
       v != source && previous[v] in interior && v in m(previous[v]) && Dist(v, dist[previous[v]] + 1)) &&
    (forall u :: u in interior && u != source ==> u in previous)
  }

  /** Queued distances never decrease and span at most two adjacent layers. */
  ghost predicate Layered(depths: seq<nat>) {
    (forall i, j :: 0 <= i <= j < |depths| ==> depths[i] <= depths[j]) &&
    (forall i :: 0 <= i < |depths| ==> depths[i] <= depths[0] + 1)
  }

  /**
    The shortest-walk search's queue and expanded set while the target is not
    found: `depths` holds every queued cell's distance, every queued cell but
    the source has a predecessor, each expanded cell's moves stay among the
    expanded or queued cells, and the target has been neither.
   */
  ghost predicate PathSearch(m: Moves, source: Position, target: Position, Dist: (Position, nat) -> bool,
                             frontier: seq<Position>, depths: seq<nat>, interior: set<Position>,
                             previous: map<Position, Position>) {
    |depths| == |frontier| && Layered(depths) &&
    (forall i :: 0 <= i < |frontier| ==> Dist(frontier[i], depths[i])) &&
    (forall i :: 0 <= i < |frontier| && frontier[i] != source ==> frontier[i] in previous) &&
    ((interior == {} && frontier == [source]) || source in interior) &&
    (forall u, q :: u in interior && q in m(u) ==> q in interior || q in frontier) &&
    target !in interior && target !in frontier
  }

  /** No queued cell is nearer than the head of the queue. */
  lemma QueuedBeyond(m: Moves, source: Position, frontier: seq<Position>, depths: seq<nat>)
    requires frontier != [] && |depths| == |frontier|
    requires forall i :: 0 <= i < |frontier| ==> DistIs(m, {source}, frontier[i], depths[i]) && depths[0] <= depths[i]
    ensures forall i :: 0 <= i < |frontier| && depths[0] > 0 ==> frontier[i] !in Within(m, {source}, depths[0] - 1)
  {
    forall i | 0 <= i < |frontier| && depths[0] > 0 ensures frontier[i] !in Within(m, {source}, depths[0] - 1) {
      if frontier[i] in Within(m, {source}, depths[0] - 1) {
        DistLowerBound(m, {source}, frontier[i], depths[i], depths[0] - 1);
      }
    }
  }

  /** Every cell nearer than the head of the queue has been expanded already. */
  lemma InnerLayers(m: Moves, source: Position, frontier: seq<Position>, depths: seq<nat>, interior: set<Position>)
    requires frontier != [] && |depths| == |frontier|
    requires forall i :: 0 <= i < |frontier| ==> DistIs(m, {source}, frontier[i], depths[i]) && depths[0] <= depths[i]
    requires source in interior || source in frontier
    requires forall u, q :: u in interior && q in m(u) ==> q in interior || q in frontier
    ensures depths[0] > 0 ==> Within(m, {source}, depths[0] - 1) <= interior
  {
    var S := interior + set q | q in frontier;
    QueuedBeyond(m, source, frontier, depths);
    assert forall u :: u in S && u !in interior ==> u in frontier;
    assert forall u :: u in interior ==> Closed(m, u, S);
    Covered(m, {source}, S, interior, depths[0]);
  }

  /**
    A cell first seen from a cell at distance `L`, and not expanded, is at
    distance `L + 1`: every nearer cell was expanded, and cardinal moves never
    join two cells at the same distance.
   */
  lemma NextLayer(m: Moves, source: Position, current: Position, L: nat, interior: set<Position>, q: Position)
    requires Cardinal(m) && DistIs(m, {source}, current, L) && q in m(current)
    requires L > 0 ==> Within(m, {source}, L - 1) <= interior
    requires q !in interior && q != current
    ensures DistIs(m, {source}, q, L + 1)
  {
    DistNext(m, {source}, current, L, q);
    if L > 0 && q in Within(m, {source}, L) {
      SameDistanceNotAdjacent(m, source, current, q, L);
      CardinalMove(m, current, q);
    }
  }

  /** Every cell nearer than the head of the shortest-walk search's queue has been expanded. */
  lemma SearchInnerLayers(m: Moves, source: Position, target: Position, Dist: (Position, nat) -> bool,
                          frontier: seq<Position>, depths: seq<nat>, interior: set<Position>, previous: map<Position, Position>)
    requires IsDistance(m, {source}, Dist)
    requires frontier != [] && PathSearch(m, source, target, Dist, frontier, depths, interior, previous)
    ensures Dist(frontier[0], depths[0])
    ensures depths[0] > 0 ==> Within(m, {source}, depths[0] - 1) <= interior
  {
    assert forall i :: 0 <= i < |frontier| ==> DistIs(m, {source}, frontier[i], depths[i]);
    InnerLayers(m, source, frontier, depths, interior);
  }

  /**
    Every cell that `current`, at distance `L`, moves to and that was not
    expanded before lies at distance `L + 1`, once every nearer cell has been
    expanded.
   */
  lemma FreshNeighbors(m: Moves, source: Position, Dist: (Position, nat) -> bool,
                       current: Position, L: nat, interior: set<Position>)
    requires Cardinal(m) && IsDistance(m, {source}, Dist)
    requires Dist(current, L) && current !in interior
    requires L > 0 ==> Within(m, {source}, L - 1) <= interior
    ensures forall q :: q in m(current) && q !in interior + {current} ==> Dist(q, L + 1)
  {
    assert DistIs(m, {source}, current, L);
    forall q | q in m(current) && q !in interior + {current} ensures Dist(q, L + 1) {
      NextLayer(m, source, current, L, interior, q);
    }
  }

  /** Skipping a queued cell that was expanded already keeps the search state. */
  lemma PathSkipStep(m: Moves, source: Position, target: Position, Dist: (Position, nat) -> bool,
                     frontier0: seq<Position>, depths0: seq<nat>, interior: set<Position>, previous: map<Position, Position>)
    requires frontier0 != [] && frontier0[0] in interior
    requires PathSearch(m, source, target, Dist, frontier0, depths0, interior, previous)
    ensures PathSearch(m, source, target, Dist, frontier0[1..], depths0[1..], interior, previous)
  {
    assert forall i :: 1 <= i < |frontier0| ==> frontier0[i] == frontier0[1..][i - 1];
    assert forall i :: 1 <= i < |depths0| ==> depths0[i] == depths0[1..][i - 1];
  }

  /** A predecessor entry kept while expanding `current` still holds. */
  lemma KeptEntry(m: Moves, source: Position, Dist: (Position, nat) -> bool, interior0: set<Position>,
                  dist0: map<Position, nat>, previous0: map<Position, Position>, current: Position, L: nat, v: Position)
    requires Predecessors(m, source, Dist, interior0, dist0, previous0)
    requires current !in interior0 && v in previous0
    ensures v != source && previous0[v] in interior0 + {current} && v in m(previous0[v])
    ensures Dist(v, dist0[current := L][previous0[v]] + 1)
  {
    assert previous0[v] in interior0;
  }

  /** A predecessor entry set while expanding `current` holds. */
  lemma NewEntry(m: Moves, source: Position, Dist: (Position, nat) -> bool, interior0: set<Position>,
                 dist0: map<Position, nat>, current: Position, L: nat, v: Position)
    requires forall q :: q in m(current) && q !in interior0 + {current} ==> Dist(q, L + 1)
    requires source in interior0 || current == source
    requires v in m(current) && v !in interior0 + {current}
    ensures v != source && current in interior0 + {current}
    ensures Dist(v, dist0[current := L][current] + 1)
  {
  }

  /** Expanding the head of the queue keeps the facts about distances and predecessors. */
  lemma PredecessorsStep(m: Moves, source: Position, Dist: (Position, nat) -> bool, interior0: set<Position>,
                         dist0: map<Position, nat>, previous0: map<Position, Position>,
                         current: Position, L: nat, previous': map<Position, Position>)
    requires Predecessors(m, source, Dist, interior0, dist0, previous0)
    requires current !in interior0 && Dist(current, L)
    requires forall q :: q in m(current) && q !in interior0 + {current} ==> Dist(q, L + 1)
    requires source in interior0 || current == source
    requires current != source ==> current in previous0
    requires previous0.Keys <= previous'.Keys
    requires forall v :: v in previous' ==>
               (v in previous0 && previous'[v] == previous0[v]) ||
               (v in m(current) && v !in interior0 + {current} && previous'[v] == current)
    ensures Predecessors(m, source, Dist, interior0 + {current}, dist0[current := L], previous')
  {
    forall v | v in previous'
      ensures v != source && previous'[v] in interior0 + {current} && v in m(previous'[v])
      ensures Dist(v, dist0[current := L][previous'[v]] + 1)
    {
      if v in previous0 && previous'[v] == previous0[v] {
        KeptEntry(m, source, Dist, interior0, dist0, previous0, current, L, v);
      } else {
        NewEntry(m, source, Dist, interior0, dist0, current, L, v);
      }
    }
  }

  /** Expanding the head of the queue, without meeting the target, keeps the search state. */
  lemma PathSearchStep(m: Moves, source: Position, target: Position, Dist: (Position, nat) -> bool,
                       frontier0: seq<Position>, depths0: seq<nat>, interior0: set<Position>,
                       previous0: map<Position, Position>, frontier': seq<Position>, previous': map<Position, Position>)
    requires frontier0 != [] && frontier0[0] !in interior0
    requires PathSearch(m, source, target, Dist, frontier0, depths0, interior0, previous0)
    requires forall q :: q in m(frontier0[0]) && q !in interior0 + {frontier0[0]} ==> Dist(q, depths0[0] + 1)
    requires |frontier'| >= |frontier0| - 1 && frontier'[..|frontier0| - 1] == frontier0[1..]
    requires forall i :: |frontier0| - 1 <= i < |frontier'| ==>
               frontier'[i] in m(frontier0[0]) && frontier'[i] !in interior0 + {frontier0[0]} &&
               frontier'[i] != target && frontier'[i] in previous'
    requires forall q :: q in m(frontier0[0]) && q !in interior0 + {frontier0[0]} ==> q in frontier'[|frontier0| - 1..]
    requires previous0.Keys <= previous'.Keys
    ensures PathSearch(m, source, target, Dist, frontier',
                       depths0[1..] + seq(|frontier'| - (|frontier0| - 1), _ => depths0[0] + 1),
                       interior0 + {frontier0[0]}, previous')
  {
    PathQueuedStep(m, source, Dist, frontier0, depths0, interior0, previous0, frontier', previous');
    PathClosedStep(m, target, frontier0, interior0, frontier');
  }

  /** Expanding the head keeps the queue layered, at its distances, and with predecessors. */
  lemma PathQueuedStep(m: Moves, source: Position, Dist: (Position, nat) -> bool,
                   frontier0: seq<Position>, depths0: seq<nat>, interior0: set<Position>,
                   previous0: map<Position, Position>, frontier': seq<Position>, previous': map<Position, Position>)
    requires frontier0 != [] && |depths0| == |frontier0| && Layered(depths0)
    requires forall i :: 0 <= i < |frontier0| ==> Dist(frontier0[i], depths0[i])
    requires forall i :: 0 <= i < |frontier0| && frontier0[i] != source ==> frontier0[i] in previous0
    requires forall q :: q in m(frontier0[0]) && q !in interior0 + {frontier0[0]} ==> Dist(q, depths0[0] + 1)
    requires |frontier'| >= |frontier0| - 1 && frontier'[..|frontier0| - 1] == frontier0[1..]
    requires forall i :: |frontier0| - 1 <= i < |frontier'| ==>
               frontier'[i] in m(frontier0[0]) && frontier'[i] !in interior0 + {frontier0[0]} && frontier'[i] in previous'
    requires previous0.Keys <= previous'.Keys
    ensures |NextDepths(depths0, |frontier'| - (|frontier0| - 1))| == |frontier'|
    ensures Layered(NextDepths(depths0, |frontier'| - (|frontier0| - 1)))
    ensures forall i :: 0 <= i < |frontier'| ==> Dist(frontier'[i], NextDepths(depths0, |frontier'| - (|frontier0| - 1))[i])
    ensures forall i :: 0 <= i < |frontier'| && frontier'[i] != source ==> frontier'[i] in previous'
  {
    var n := |frontier0| - 1;
    var depths' := NextDepths(depths0, |frontier'| - n);
    assert forall i :: 0 <= i < n ==> frontier'[i] == frontier0[i + 1];
  }

  /** Expanding the head keeps every move of an expanded cell seen, and the target unseen. */
  lemma PathClosedStep(m: Moves, target: Position, frontier0: seq<Position>, interior0: set<Position>, frontier': seq<Position>)
    requires frontier0 != []
    requires forall u, q :: u in interior0 && q in m(u) ==> q in interior0 || q in frontier0
    requires target !in interior0 && target !in frontier0
    requires |frontier'| >= |frontier0| - 1 && frontier'[..|frontier0| - 1] == frontier0[1..]
    requires forall i :: |frontier0| - 1 <= i < |frontier'| ==> frontier'[i] != target
    requires forall q :: q in m(frontier0[0]) && q !in interior0 + {frontier0[0]} ==> q in frontier'[|frontier0| - 1..]
    ensures forall u, q :: u in interior0 + {frontier0[0]} && q in m(u) ==> q in interior0 + {frontier0[0]} || q in frontier'
    ensures target !in interior0 + {frontier0[0]} && target !in frontier'
  {
    var n := |frontier0| - 1;
    assert forall q :: q in frontier0 ==> q == frontier0[0] || q in frontier'[..n];
    assert forall k :: n <= k < |frontier'| ==> frontier'[n..][k - n] == frontier'[k];
  }

  /** A search that ran out of queued cells without seeing the target cannot reach it. */
  lemma SearchExhausted(m: Moves, source: Position, target: Position, Dist: (Position, nat) -> bool,
                        frontier: seq<Position>, depths: seq<nat>, interior: set<Position>, previous: map<Position, Position>)
    requires frontier == [] && PathSearch(m, source, target, Dist, frontier, depths, interior, previous)
    ensures !Reached(m, {source}, target)
  {
    assert forall u :: u in interior ==> Closed(m, u, interior);
    if Reached(m, {source}, target) {
      ClosedContainsReached(m, {source}, interior, target);
    }
  }

  /** The queued distances after expanding the head and queueing `n` cells one layer further out. */
  ghost function NextDepths(depths: seq<nat>, n: nat): (r: seq<nat>)
    requires depths != []
    ensures |r| == |depths| - 1 + n
    ensures forall i :: 0 <= i < |depths| - 1 ==> r[i] == depths[i + 1]
    ensures forall i :: |depths| - 1 <= i < |r| ==> r[i] == depths[0] + 1
  {
    depths[1..] + seq(n, _ => depths[0] + 1)
  }

  /**
    Everything the search loop keeps: queued and expanded cells lie in
    `cells`, the predecessors are sound, and while the target is not found
    the queue is a breadth-first frontier; once it is found, it has a
    predecessor.
   */
  ghost predicate SearchState(m: Moves, source: Position, target: Position, Dist: (Position, nat) -> bool,
                              cells: set<Position>, found: bool, frontier: seq<Position>, depths: seq<nat>,
                              interior: set<Position>, dist: map<Position, nat>, previous: map<Position, Position>) {
    (forall i :: 0 <= i < |frontier| ==> frontier[i] in cells) && interior <= cells &&
    Predecessors(m, source, Dist, interior, dist, previous) &&
    (!found ==> PathSearch(m, source, target, Dist, frontier, depths, interior, previous)) &&
    (found ==> target in previous)
  }

  /** Expanding the head of the queue, as `RecordNeighbors` does, keeps the search state. */
  lemma ExpandStep(m: Moves, source: Position, target: Position, Dist: (Position, nat) -> bool, cells: set<Position>,
                   frontier0: seq<Position>, depths0: seq<nat>, interior0: set<Position>, dist0: map<Position, nat>,
                   previous0: map<Position, Position>, found: bool, frontier': seq<Position>, previous': map<Position, Position>)
    requires Cardinal(m) && IsDistance(m, {source}, Dist) && forall c, q :: q in m(c) ==> q in cells
    requires frontier0 != [] && frontier0[0] !in interior0
    requires SearchState(m, source, target, Dist, cells, false, frontier0, depths0, interior0, dist0, previous0)
    requires found <==> target in m(frontier0[0]) && target !in interior0 + {frontier0[0]}
    requires found ==> target in previous'
    requires |frontier'| >= |frontier0[1..]| && frontier'[..|frontier0[1..]|] == frontier0[1..]
    requires forall i :: |frontier0[1..]| <= i < |frontier'| ==>
               frontier'[i] in m(frontier0[0]) && frontier'[i] !in interior0 + {frontier0[0]} &&
               frontier'[i] != target && frontier'[i] in previous'
    requires !found ==> forall q :: q in m(frontier0[0]) && q !in interior0 + {frontier0[0]} ==> q in frontier'[|frontier0[1..]|..]
    requires previous0.Keys <= previous'.Keys
    requires forall v :: v in previous' ==>
               (v in previous0 && previous'[v] == previous0[v]) ||
               (v in m(frontier0[0]) && v !in interior0 + {frontier0[0]} && previous'[v] == frontier0[0])
    ensures SearchState(m, source, target, Dist, cells, found, frontier', NextDepths(depths0, |frontier'| - (|frontier0| - 1)),
                        interior0 + {frontier0[0]}, dist0[frontier0[0] := depths0[0]], previous')
  {
    var current, L := frontier0[0], depths0[0];
    SearchInnerLayers(m, source, target, Dist, frontier0, depths0, interior0, previous0);
    FreshNeighbors(m, source, Dist, current, L, interior0);
    PredecessorsStep(m, source, Dist, interior0, dist0, previous0, current, L, previous');
    if !found {
      PathSearchStep(m, source, target, Dist, frontier0, depths0, interior0, previous0, frontier', previous');
    }
    assert forall i :: 0 <= i < |frontier0| - 1 ==> frontier'[i] == frontier0[i + 1];
  }

  /**
    The search loop of the shortest-walk search: breadth-first from `source`
    over `moves`, expanding each queued cell at most once and recording for
    every cell seen the expanded cell it was last seen from, until the target
    is seen or the queue runs out. The target is seen exactly when it can be
    reached. `cells` bounds what the moves can see, so the loop ends.
   */
  method SearchPredecessors(moves: Moves, source: Position, target: Position,
                            ghost Dist: (Position, nat) -> bool, ghost cells: set<Position>)
    returns (found: bool, previous: map<Position, Position>, interior: set<Position>, ghost dist: map<Position, nat>)
    requires source != target && Cardinal(moves) && IsDistance(moves, {source}, Dist)
    requires source in cells && forall c, q :: q in moves(c) ==> q in cells
    ensures Predecessors(moves, source, Dist, interior, dist, previous)
    ensures found ==> target in previous
    ensures !found ==> !Reached(moves, {source}, target)
  {
    var frontier := [source];
    ghost var depths: seq<nat> := [0];
    interior, previous, found, dist := {}, map[], false, map[];
    SeedDistance(moves, {source}, Dist, source);
    while !found && frontier != []
      invariant SearchState(moves, source, target, Dist, cells, found, frontier, depths, interior, dist, previous)
      decreases |cells| - |interior|, |frontier|
    {
      var current := frontier[0];
      if current in interior {
        PathSkipStep(moves, source, target, Dist, frontier, depths, interior, previous);
        frontier, depths := frontier[1..], depths[1..];
        continue;
      }
      var found', frontier', previous' := RecordNeighbors(moves(current), current, target, frontier[1..], interior + {current}, previous);
      ExpandStep(moves, source, target, Dist, cells, frontier, depths, interior, dist, previous, found', frontier', previous');
      CardAddOne(interior, current);
      dist := dist[current := depths[0]];
      depths := NextDepths(depths, |frontier'| - (|frontier| - 1));
      found, frontier, interior, previous := found', frontier', interior + {current}, previous';
      SubsetCard(interior, cells);
    }
    if !found {
      SearchExhausted(moves, source, target, Dist, frontier, depths, interior, previous);
    }
  }

  /**
    `path` runs from `target` back to `source`, each cell one move from the
    cell after it, and it has as few moves as the distance from the source to
    the target.
   */
  ghost predicate WalkBack(m: Moves, source: Position, target: Position, path: seq<Position>) {
    Trail(m, source, target, path) && DistIs(m, {source}, target, |path| - 1)
  }

  /** `path` runs from `target` back to `source`, each cell one move from the cell after it. */
  ghost predicate Trail(m: Moves, source: Position, target: Position, path: seq<Position>) {
    |path| >= 1 && path[0] == target && path[|path| - 1] == source &&
    (forall i :: 0 <= i < |path| - 1 ==> path[i] in m(path[i + 1]))
  }

  /**
    One step of the back-trace: a cell other than the source that the search
    recorded has a predecessor one move before it and one layer nearer the
    source.
   */
  lemma BackStep(m: Moves, source: Position, Dist: (Position, nat) -> bool, interior: set<Position>,
                 dist: map<Position, nat>, previous: map<Position, Position>, target: Position, current: Position, d: nat)
    requires IsDistance(m, {source}, Dist) && Predecessors(m, source, Dist, interior, dist, previous)
    requires target in previous && (current == target || current in interior) && current != source
    requires Dist(current, d)
    ensures current in previous && previous[current] in interior && current in m(previous[current])
    ensures d >= 1 && Dist(previous[current], d - 1)
  {
    var u := previous[current];
    DistanceUnique(m, {source}, Dist, current, d, dist[u] + 1);
  }

  /**
    The back-trace of the shortest-walk search: from the target, follow the
    recorded predecessors to the source, appending every cell on the way,
    the source last, to `output`.
   */
  method TraceBack(ghost m: Moves, ghost Dist: (Position, nat) -> bool,
                   ghost interior: set<Position>, ghost dist: map<Position, nat>,
                   previous: map<Position, Position>, source: Position, target: Position, output: seq<Position>)
    returns (path: seq<Position>)
    requires IsDistance(m, {source}, Dist)
    requires Predecessors(m, source, Dist, interior, dist, previous)
    requires source != target && target in previous
    ensures |path| > |output| && path[..|output|] == output
    ensures Trail(m, source, target, path[|output|..]) && Dist(target, |path| - |output| - 1)
  {
    path := output;
    var current := target;
    ghost var D: nat := dist[previous[target]] + 1;
    ghost var d := D;
    ghost var walked: seq<Position> := [];
    while current != source
      invariant current == target || current in interior
      invariant Dist(current, d) && Dist(target, D)
      invariant path == output + walked && |walked| == D - d
      invariant walked == [] ==> current == target
      invariant walked != [] ==> walked[0] == target && walked[|walked| - 1] in m(current)
      invariant forall i :: 0 <= i < |walked| - 1 ==> walked[i] in m(walked[i + 1])
      decreases d
    {
      BackStep(m, source, Dist, interior, dist, previous, target, current, d);
      var u := previous[current];
      ghost var walked0 := walked;
      path := path + [current];
      walked := walked + [current];
      forall i | 0 <= i < |walked| - 1 ensures walked[i] in m(walked[i + 1]) {
        assert walked[i] == walked0[i];
      }
      current := u;
      d := d - 1;
    }
    SeedDistance(m, {source}, Dist, source);
    DistanceUnique(m, {source}, Dist, source, d, 0);
    ghost var walked0 := walked;
    path := path + [current];
    walked := walked + [current];
    forall i | 0 <= i < |walked| - 1 ensures walked[i] in m(walked[i + 1]) {
      assert walked[i] == walked0[i];
    }
    assert path[|output|..] == walked;
  }

  /**
    What a walk back from the target gives a walker: every step is one
    cardinal step, every cell but the source is a valid walkable cell off the
    dynamic obstacles, and no walk from the source to the target is shorter.
   */
  lemma WalkBackShape(g: Grid, obstacles: seq<Position>, source: Position, target: Position, path: seq<Position>)
    requires WalkBack(MovesOf(g, Walk(obstacles)), source, target, path)
    ensures forall i :: 0 <= i < |path| - 1 ==> Adjacent(path[i + 1], path[i])
    ensures forall i :: 0 <= i < |path| - 1 ==> Valid(g, path[i]) && IsWalkable(g, path[i], obstacles) && path[i] !in obstacles
    ensures forall w :: WalkFrom(MovesOf(g, Walk(obstacles)), {source}, w, target) ==> |w| >= |path|
  {
    forall i | 0 <= i < |path| - 1
      ensures Adjacent(path[i + 1], path[i])
      ensures Valid(g, path[i]) && IsWalkable(g, path[i], obstacles) && path[i] !in obstacles
    {
      assert path[i] in Succ(g, Walk(obstacles), path[i + 1]);
      MoveShape(g, Walk(obstacles), path[i + 1], path[i]);
    }
    DistIsShortest(MovesOf(g, Walk(obstacles)), {source}, target, |path| - 1);
  }

  // ---------------------------------------------------------------- the displacement mapping

  /**
    Annotation `which` of every cell of `g` is the cell's distance, under
    `rule` on `g0`, to the nearest of `seeds` if the rule reaches it, and what
    it was in `g0` if not; the layout is that of `g0`.
   */
  ghost predicate Annotates(g0: Grid, g: Grid, rule: Rule, which: Annotation, seeds: seq<Position>) {
    SameLayout(g0, g) &&
    forall p :: Valid(g0, p) ==>
      if Reached(MovesOf(g0, rule), SeedSet(seeds), p)
      then DistIs(MovesOf(g0, rule), SeedSet(seeds), p, At(g, p).Displacement(which))
      else At(g, p).Displacement(which) == At(g0, p).Displacement(which)
  }

  /** Annotating a grid keeps every tile's other annotation. */
  lemma DisplacedKeeps(g0: Grid, g: Grid, rule: Rule, which: Annotation, other: Annotation, seeds: seq<Position>)
    requires Displaced(g0, g, rule, which, seeds) && other != which
    ensures forall p :: Valid(g0, p) ==> Valid(g, p) && At(g, p).Displacement(other) == At(g0, p).Displacement(other)
  {
    forall p | Valid(g0, p) ensures Valid(g, p) && At(g, p).Displacement(other) == At(g0, p).Displacement(other) {
      if Reached(MovesOf(g0, rule), SeedSet(seeds), p) {
        assert At(g, p) == At(g0, p).WithDisplacement(which, At(g, p).Displacement(which));
      }
    }
  }

  /**
    The two passes of the mapping, one after the other: the crate-start pass
    on `g0` gives `g1`, the crate-target pass on `g1` gives `g2`. Since the
    first pass changes only annotations, the second sees the board of `g0`;
    each pass leaves the other's annotation alone.
   */
  lemma BothPasses(g0: Grid, g1: Grid, g2: Grid, starts: seq<Position>, ends: seq<Position>)
    requires Displaced(g0, g1, AxisPair, SourceDisplacement, starts)
    requires Displaced(g1, g2, TwoAhead, TargetDisplacement, ends)
    ensures Annotates(g0, g2, AxisPair, SourceDisplacement, starts)
    ensures Annotates(g0, g2, TwoAhead, TargetDisplacement, ends)
  {
    DisplacedKeeps(g0, g1, AxisPair, SourceDisplacement, TargetDisplacement, starts);
    DisplacedKeeps(g1, g2, TwoAhead, TargetDisplacement, SourceDisplacement, ends);
    assert SameLayout(g0, g2);
    forall p | Valid(g0, p)
      ensures if Reached(MovesOf(g0, TwoAhead), SeedSet(ends), p)
              then DistIs(MovesOf(g0, TwoAhead), SeedSet(ends), p, At(g2, p).targetDisplacement)
              else At(g2, p).targetDisplacement == At(g0, p).targetDisplacement
    {
      ReachedFrame(g0, g1, TwoAhead, SeedSet(ends), p);
      DistFrame(g0, g1, TwoAhead, SeedSet(ends), p, At(g2, p).targetDisplacement);
    }
    forall p | Valid(g0, p)
      ensures if Reached(MovesOf(g0, AxisPair), SeedSet(starts), p)
              then DistIs(MovesOf(g0, AxisPair), SeedSet(starts), p, At(g2, p).sourceDisplacement)
              else At(g2, p).sourceDisplacement == At(g0, p).sourceDisplacement
    {
    }
  }

  /** The board stays walled in around the seeds while only annotations change. */
  lemma EnclosedFrame(g0: Grid, g: Grid, seeds: seq<Position>)
    requires SameLayout(g0, g) && Enclosed(g0, seeds)
    ensures Enclosed(g, seeds)
  {
    assert forall p :: Valid(g0, p) <==> Valid(g, p);
    forall p | IsOpen(g, p) ensures Surrounded(g, p) {
      assert IsOpen(g0, p);
    }
  }

  /**
    A displacement of zero marks exactly the seeds: every seed is reached and
    reads zero, and every other reached cell reads more.
   */
  lemma DisplacementZero(g0: Grid, g: Grid, rule: Rule, which: Annotation, seeds: seq<Position>, p: Position)
    requires Annotates(g0, g, rule, which, seeds) && Valid(g0, p)
    requires p in seeds || Reached(MovesOf(g0, rule), SeedSet(seeds), p)
    ensures Reached(MovesOf(g0, rule), SeedSet(seeds), p)
    ensures At(g, p).Displacement(which) == 0 <==> p in seeds
  {
    var M, S := MovesOf(g0, rule), SeedSet(seeds);
    if p in seeds {
      SeedReached(M, S, p);
      assert DistIs(M, S, p, 0);
      DistUnique(M, S, p, At(g, p).Displacement(which), 0);
    }
  }

  /** What `Annotates` says of one reached cell: its annotation is its distance. */
  lemma AnnotatedDist(g0: Grid, g: Grid, rule: Rule, which: Annotation, seeds: seq<Position>, p: Position)
    requires Annotates(g0, g, rule, which, seeds) && Valid(g0, p)
    requires Reached(MovesOf(g0, rule), SeedSet(seeds), p)
    ensures Valid(g, p) && DistIs(MovesOf(g0, rule), SeedSet(seeds), p, At(g, p).Displacement(which))
  {
  }

  /**
    One move of the rule raises the displacement by at most one: the
    annotation is a distance, so it obeys the triangle inequality along moves.
   */
  lemma DisplacementStep(g0: Grid, g: Grid, rule: Rule, which: Annotation, seeds: seq<Position>, u: Position, q: Position)
    requires Annotates(g0, g, rule, which, seeds) && Valid(g0, u)
    requires Reached(MovesOf(g0, rule), SeedSet(seeds), u) && q in Succ(g0, rule, u)
    ensures Valid(g0, q) && Reached(MovesOf(g0, rule), SeedSet(seeds), q)
    ensures At(g, q).Displacement(which) <= At(g, u).Displacement(which) + 1
  {
    var M, S := MovesOf(g0, rule), SeedSet(seeds);
    MoveShape(g0, rule, u, q);
    assert q in M(u);
    ReachedStep(M, S, u, q);
    AnnotatedDist(g0, g, rule, which, seeds, u);
    AnnotatedDist(g0, g, rule, which, seeds, q);
    DistTriangle(M, S, u, At(g, u).Displacement(which), q, At(g, q).Displacement(which));
  }

  /**
    Every reached cell other than a seed is one move from a reached cell whose
    displacement is one less: following decreasing displacements leads back to
    a seed.
   */
  lemma DisplacementDescends(g0: Grid, g: Grid, rule: Rule, which: Annotation, seeds: seq<Position>, p: Position)
    returns (u: Position)
    requires Annotates(g0, g, rule, which, seeds) && forall i :: 0 <= i < |seeds| ==> Valid(g0, seeds[i])
    requires Valid(g0, p) && Reached(MovesOf(g0, rule), SeedSet(seeds), p) && p !in seeds
    ensures Valid(g0, u) && Reached(MovesOf(g0, rule), SeedSet(seeds), u) && p in Succ(g0, rule, u)
    ensures At(g, u).Displacement(which) + 1 == At(g, p).Displacement(which)
    ensures !rule.Walk? ==> IsOpen(g0, p)
  {
    var M, S := MovesOf(g0, rule), SeedSet(seeds);
    var d := At(g, p).Displacement(which);
    assert d > 0;
    u := DistStep(M, S, p, d - 1);
    assert Reached(M, S, u);
    if d - 1 > 0 {
      var w := DistStep(M, S, u, d - 2);
      assert u in Succ(g0, rule, w);
      MoveShape(g0, rule, w, u);
    }
    DistUnique(M, S, u, At(g, u).Displacement(which), d - 1);
    MoveShape(g0, rule, u, p);
  }

  class Maze {
    var tiles: Grid
    var playerStartingPos: Position
    var cratesStartingPos: seq<Position>
    var cratesEndingPos: seq<Position>

    /**
      The class invariant is only this: every tile's cached walkability flag
      agrees with its type. The constructor establishes it and every mutator
      keeps it (`old(Inv()) ==> Inv()`); the mutators do not require it, since
      the code lets them run on any board.
     */
    ghost predicate Inv()
      reads this
    {
      Consistent(tiles)
    }

    /** An empty maze: no rows, no crates, the player at the origin. */
    constructor()
      ensures tiles == [] && Height(tiles) == 0
      ensures playerStartingPos == Position(0, 0)
      ensures cratesStartingPos == [] && cratesEndingPos == []
      ensures Inv()
    {
      tiles := [];
      playerStartingPos := Position(0, 0);
      cratesStartingPos := [];
      cratesEndingPos := [];
    }

    // -------------------------------------------------------------- building the grid

    /** Appends a row of `length` new tiles below the existing rows. */
    method AddRow(length: nat)
      modifies this
      ensures tiles == old(tiles) + [seq(length, _ => NewTile())]
      ensures Height(tiles) == old(Height(tiles)) + 1 && Width(tiles, Height(tiles) - 1) == length
      ensures forall p :: Valid(tiles, p) <==> Valid(old(tiles), p) || (p.y == old(Height(tiles)) && 0 <= p.x < length)
      ensures forall p :: Valid(old(tiles), p) ==> At(tiles, p) == old(At(tiles, p))
      ensures forall p :: Valid(tiles, p) && !Valid(old(tiles), p) ==> At(tiles, p) == NewTile()
      ensures old(Inv()) ==> Inv()
      ensures unchanged(this`playerStartingPos) && unchanged(this`cratesStartingPos) && unchanged(this`cratesEndingPos)
    {
      tiles := tiles + [seq(length, _ => NewTile())];
    }

    /** Sets the type of the tile at a valid position, keeping its flag in step. */
    method SetTileType(p: Position, value: TileType)
      requires Valid(tiles, p)
      modifies this
      ensures tiles == SetAt(old(tiles), p, old(At(tiles, p)).SetType(value))
      ensures At(tiles, p).kind == value && (At(tiles, p).IsWalkable() <==> value != Obstacle)
      ensures forall q :: Valid(tiles, q) <==> Valid(old(tiles), q)
      ensures old(Inv()) ==> Inv()
      ensures unchanged(this`playerStartingPos) && unchanged(this`cratesStartingPos) && unchanged(this`cratesEndingPos)
    {
      tiles := SetAt(tiles, p, At(tiles, p).SetType(value));
    }

    // -------------------------------------------------------------- walking queries

    /**
      Whether a walker on `source` can get to `target` by one or more steps onto
      walking neighbours. The source counts as seen once it is expanded, and the
      target is only looked for among newly seen cells, so the answer for the
      source itself is no.
     */
    method Reachable(source: Position, target: Position, obstacles: seq<Position>) returns (r: bool)
      ensures r <==> source != target && Reached(MovesOf(tiles, Walk(obstacles)), {source}, target)
    {
      ghost var m := MovesOf(tiles, Walk(obstacles));
      ghost var bound := |Cells(tiles)| + 1;
      var frontier := [source];
      var interior: set<Position> := {};
      SeedReached(m, {source}, source);
      while frontier != []
        invariant forall q :: q in interior ==> q == source || Valid(tiles, q)
        invariant |interior| <= bound
        invariant WalkSearch(m, source, target, frontier, interior) || (interior == {} && frontier == [source])
        decreases bound - |interior|, |frontier|
      {
        ghost var frontier0, interior0 := frontier, interior;
        var current := frontier[0];
        frontier := frontier[1..];
        interior := interior + {current};
        var neighbors := Neighbors(tiles, current, obstacles);
        var hit, frontier', interior' := VisitNeighbors(neighbors, target, frontier, interior);
        if hit {
          ReachedStep(m, {source}, current, target);
          return true;
        }
        WalkRound(tiles, obstacles, source, target, frontier0, interior0, neighbors, frontier', interior');
        frontier, interior := frontier', interior';
        SeenBound(tiles, source, interior);
      }
      if Reached(m, {source}, target) {
        ClosedContainsReached(m, {source}, interior, target);
      }
      return false;
    }

    /**
      A shortest walk from `source` to `target`, appended to `output` from the
      target back to the source; `output` comes back unchanged when the two
      are the same cell. A target the walker cannot reach gives `None`.
     */
    method FindPath(source: Position, target: Position, obstacles: seq<Position>, output: seq<Position>)
      returns (result: Option<seq<Position>>)
      ensures source == target ==> result == Some(output)
      ensures source != target ==> (result.Some? <==> Reached(MovesOf(tiles, Walk(obstacles)), {source}, target))
      ensures result.Some? && source != target ==>
                |result.value| > |output| && result.value[..|output|] == output &&
                WalkBack(MovesOf(tiles, Walk(obstacles)), source, target, result.value[|output|..])
    {
      if source == target {
        return Some(output);
      }
      var moves := MovesOf(tiles, Walk(obstacles));
      ghost var Dist := (p: Position, k: nat) => DistIs(moves, {source}, p, k);
      ghost var cells := Cells(tiles) + {source};
      MovesAreCardinal(tiles, Walk(obstacles));
      forall c, q | q in moves(c) ensures q in cells {
        MoveShape(tiles, Walk(obstacles), c, q);
      }
      var found, previous, interior, dist := SearchPredecessors(moves, source, target, Dist, cells);
      if !found {
        return None;
      }
      var path := TraceBack(moves, Dist, interior, dist, previous, source, target, output);
      assert target in Within(moves, {source}, |path| - |output| - 1);
      return Some(path);
    }

    // -------------------------------------------------------------- the displacement mapping

    /**
      Annotates every tile a pass reaches with its crate displacements: the source
      displacement of a cell is its distance, under the axis-pair rule, to the
      nearest crate start, and its target displacement its distance, under the
      two-ahead rule, to the nearest crate target. A cell a pass does not reach
      keeps the annotation it had. The probes read one and two tiles past a
      cell without bounds checks, so the board must be walled in around every
      open tile and every seed.
     */
    method CalculateDisplacementMapping()
      requires Enclosed(tiles, cratesStartingPos) && Enclosed(tiles, cratesEndingPos)
      modifies this`tiles
      ensures Annotates(old(tiles), tiles, AxisPair, SourceDisplacement, cratesStartingPos)
      ensures Annotates(old(tiles), tiles, TwoAhead, TargetDisplacement, cratesEndingPos)
      ensures old(Inv()) ==> Inv()
    {
      var g1 := Spread(tiles, AxisPair, SourceDisplacement, cratesStartingPos);
      EnclosedFrame(tiles, g1, cratesEndingPos);
      var g2 := Spread(g1, TwoAhead, TargetDisplacement, cratesEndingPos);
      BothPasses(tiles, g1, g2, cratesStartingPos, cratesEndingPos);
      tiles := g2;
    }

    // -------------------------------------------------------------- the player and the crates

    method SetPlayerStartingPos(p: Position)
      modifies this`playerStartingPos
      ensures playerStartingPos == p
    {
      playerStartingPos := p;
    }

    function GetPlayerStartingPos(): Position
      reads this
    {
      playerStartingPos
    }

    /** Registers one more crate start after the ones already registered. */
    method AddCratesStartingPos(p: Position)
      modifies this`cratesStartingPos
      ensures cratesStartingPos == old(cratesStartingPos) + [p]
    {
      cratesStartingPos := cratesStartingPos + [p];
    }

    function GetCratesStartingPos(): seq<Position>
      reads this
    {
      cratesStartingPos
    }

    /** Registers one more crate target after the ones already registered. */
    method AddCratesEndingPos(p: Position)
      modifies this`cratesEndingPos
      ensures cratesEndingPos == old(cratesEndingPos) + [p]
    {
      cratesEndingPos := cratesEndingPos + [p];
    }

    function GetCratesEndingPos(): seq<Position>
      reads this
    {
      cratesEndingPos
    }
  }
}
