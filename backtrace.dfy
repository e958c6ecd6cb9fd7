/**
  The back-trace of the shortest-walk search exactly as the code writes it:
  it runs even when the search did not find the target, and it reads the
  predecessor map with the indexing operator of an ordered map, which yields a
  default-constructed position, the origin, for a cell with no entry. The
  model of the search (`Mazes.Maze.FindPath`) stops with `None` instead; the
  lemmas here show why.
 */
module BackTrace {
  import opened Wrappers
  import opened Board
  import opened Traversal
  import opened Mazes

  /** The origin: what the predecessor map gives for a cell it has no entry for. */
  const Origin := Position(0, 0)

  /** The predecessor map read with a default: a missing entry reads as the origin. */
  function Lookup(previous: map<Position, Position>, p: Position): (r: Position)
    ensures p in previous ==> r == previous[p]
    ensures p !in previous ==> r == Origin
  {
    if p in previous then previous[p] else Origin
  }

  /**
    The cells the back-trace of the code appends, from `current` until it meets
    `source`; `None` when it has not met the source within `fuel` steps, which
    models a loop that never ends.
   */
  function TraceAsWritten(previous: map<Position, Position>, source: Position, current: Position, fuel: nat): Option<seq<Position>>
    decreases fuel
  {
    if current == source then Some([current])
    else if fuel == 0 then None
    else match TraceAsWritten(previous, source, Lookup(previous, current), fuel - 1)
      case Some(rest) => Some([current] + rest)
      case None => None
  }

  /**
    When the search did find the target, the back-trace as written is right:
    from any recorded cell `d` moves from the source it reaches the source in
    exactly `d` steps, each a move of the search backwards.
   */
  lemma {:induction false} AsWrittenFollows(m: Moves, source: Position, Dist: (Position, nat) -> bool,
                                            interior: set<Position>, dist: map<Position, nat>,
                                            previous: map<Position, Position>, target: Position,
                                            current: Position, d: nat)
    requires IsDistance(m, {source}, Dist) && Predecessors(m, source, Dist, interior, dist, previous)
    requires target in previous && (current == target || current in interior) && Dist(current, d)
    ensures TraceAsWritten(previous, source, current, d).Some?
    ensures |TraceAsWritten(previous, source, current, d).value| == d + 1
    ensures Trail(m, source, current, TraceAsWritten(previous, source, current, d).value)
    decreases d
  {
    if current == source {
      SeedDistance(m, {source}, Dist, source);
      DistanceUnique(m, {source}, Dist, source, d, 0);
    } else {
      BackStep(m, source, Dist, interior, dist, previous, target, current, d);
      var u := previous[current];
      AsWrittenFollows(m, source, Dist, interior, dist, previous, target, u, d - 1);
      var rest := TraceAsWritten(previous, source, u, d - 1).value;
      var path := TraceAsWritten(previous, source, current, d).value;
      assert path == [current] + rest;
      assert forall i :: 1 <= i < |path| - 1 ==> path[i] == rest[i - 1] && path[i + 1] == rest[i];
    }
  }

  /** Stuck at the origin: with no entry for it, the origin is its own predecessor. */
  lemma {:induction false} StuckAtOrigin(previous: map<Position, Position>, source: Position, fuel: nat)
    requires Origin !in previous && source != Origin
    ensures TraceAsWritten(previous, source, Origin, fuel) == None
    decreases fuel
  {
    if fuel > 0 {
      StuckAtOrigin(previous, source, fuel - 1);
    }
  }

  /** Only cells the search reached have a recorded predecessor. */
  lemma RecordedIsReached(m: Moves, source: Position, Dist: (Position, nat) -> bool,
                          interior: set<Position>, dist: map<Position, nat>,
                          previous: map<Position, Position>, p: Position)
    requires IsDistance(m, {source}, Dist) && Predecessors(m, source, Dist, interior, dist, previous)
    requires p in previous
    ensures Reached(m, {source}, p)
  {
    var k := dist[previous[p]] + 1;
    assert DistIs(m, {source}, p, k);
  }

  /**
    With a target the walker cannot reach and a source other than the origin,
    the back-trace as written never ends when the origin is not reachable
    either (as when the corner of the board is a wall): the target has no
    recorded predecessor, so it steps to the origin, which has none and reads
    as its own.
   */
  lemma UnreachableNeverEnds(m: Moves, source: Position, target: Position, Dist: (Position, nat) -> bool,
                             interior: set<Position>, dist: map<Position, nat>,
                             previous: map<Position, Position>, fuel: nat)
    requires IsDistance(m, {source}, Dist) && Predecessors(m, source, Dist, interior, dist, previous)
    requires source != target && !Reached(m, {source}, target)
    requires source != Origin && !Reached(m, {source}, Origin)
    ensures TraceAsWritten(previous, source, target, fuel) == None
  {
    if target in previous {
      RecordedIsReached(m, source, Dist, interior, dist, previous, target);
    }
    if Origin in previous {
      RecordedIsReached(m, source, Dist, interior, dist, previous, Origin);
    }
    if fuel > 0 {
      StuckAtOrigin(previous, source, fuel - 1);
    }
  }

  /**
    With the source at the origin, the back-trace as written ends at once on
    an unreachable target and reports the target and the source as a walk,
    though they need not be next to each other.
   */
  lemma OriginShortcut(previous: map<Position, Position>, target: Position, fuel: nat)
    requires target !in previous && target != Origin && fuel > 0
    ensures TraceAsWritten(previous, Origin, target, fuel) == Some([target, Origin])
  {
    assert Lookup(previous, target) == Origin;
    assert TraceAsWritten(previous, Origin, Origin, fuel - 1) == Some([Origin]);
    assert [target] + [Origin] == [target, Origin];
  }

  /** A concrete case: from the origin to an unreachable cell two steps away diagonally. */
  lemma OriginShortcutExample()
    ensures TraceAsWritten(map[], Origin, Position(2, 2), 1) == Some([Position(2, 2), Origin])
    ensures !Adjacent(Position(2, 2), Origin)
  {
    OriginShortcut(map[], Position(2, 2), 1);
  }
}
