/**
  The three move rules the maze searches with, and what every one of them
  guarantees: moves are single cardinal steps onto valid cells, a walker never
  steps onto a dynamic obstacle, and the moves depend only on the tiles' types
  and flags, never on their displacement annotations.
 */
module Rules {
  import opened Board
  import opened Traversal

  /**
    `Walk` is the walker's move (the walking neighbours past the dynamic
    obstacles); `AxisPair` is the crate-start pass's rule and `TwoAhead` the
    crate-target pass's rule.
   */
  datatype Rule = Walk(obstacles: seq<Position>) | AxisPair | TwoAhead

  /** The cells a search under `rule` moves to from `c`, in the order it probes them. */
  function Succ(g: Grid, rule: Rule, c: Position): seq<Position> {
    match rule
    case Walk(obstacles) => Neighbors(g, c, obstacles)
    case AxisPair => AxisPairRule(g, c)
    case TwoAhead => TwoAheadRule(g, c)
  }

  /** The rule on grid `g` as a move function. */
  function MovesOf(g: Grid, rule: Rule): Moves {
    c => Succ(g, rule, c)
  }

  // ---------------------------------------------------------------- the shape of a move

  lemma AxisPairMove(g: Grid, c: Position, q: Position)
    requires q in AxisPairRule(g, c)
    ensures Adjacent(c, q) && IsOpen(g, q)
  {
  }

  lemma TwoAheadMove(g: Grid, c: Position, q: Position)
    requires q in TwoAheadRule(g, c)
    ensures Adjacent(c, q) && IsOpen(g, q)
  {
    var d :| d in [Up, Right, Down, Left] && q in AheadRule(g, c, d);
  }

  /**
    Every move is one cardinal step onto a valid cell: an open one for the two
    displacement rules, and for the walker a tile that passes the walkability
    test and holds no dynamic obstacle.
   */
  lemma MoveShape(g: Grid, rule: Rule, c: Position, q: Position)
    requires q in Succ(g, rule, c)
    ensures Adjacent(c, q) && Valid(g, q)
    ensures rule.Walk? ==> IsWalkable(g, q, rule.obstacles) && q !in rule.obstacles
    ensures !rule.Walk? ==> IsOpen(g, q)
  {
    match rule
    case Walk(obstacles) =>
    case AxisPair => AxisPairMove(g, c, q);
    case TwoAhead => TwoAheadMove(g, c, q);
  }

  /** All three rules move by cardinal steps, so the parity argument applies to each. */
  lemma MovesAreCardinal(g: Grid, rule: Rule)
    ensures Cardinal(MovesOf(g, rule))
  {
    forall c, q | q in MovesOf(g, rule)(c) ensures Adjacent(c, q) {
      MoveShape(g, rule, c, q);
    }
  }

  // ---------------------------------------------------------------- cells no search reaches

  /** A walker never reaches a cell listed as a dynamic obstacle, unless it starts there. */
  lemma ObstacleNeverReached(g: Grid, obstacles: seq<Position>, seeds: set<Position>, t: Position)
    requires t in obstacles && t !in seeds
    ensures !Reached(MovesOf(g, Walk(obstacles)), seeds, t)
  {
    forall c ensures t !in MovesOf(g, Walk(obstacles))(c) {
      if t in MovesOf(g, Walk(obstacles))(c) {
        MoveShape(g, Walk(obstacles), c, t);
      }
    }
    NeverEnteredNotReached(MovesOf(g, Walk(obstacles)), seeds, t);
  }

  /** No search reaches a position outside the grid, unless it starts there. */
  lemma OffBoardNeverReached(g: Grid, rule: Rule, seeds: set<Position>, t: Position)
    requires !Valid(g, t) && t !in seeds
    ensures !Reached(MovesOf(g, rule), seeds, t)
  {
    forall c ensures t !in MovesOf(g, rule)(c) {
      if t in MovesOf(g, rule)(c) {
        MoveShape(g, rule, c, t);
      }
    }
    NeverEnteredNotReached(MovesOf(g, rule), seeds, t);
  }

  // ---------------------------------------------------------------- how much a search can see

  /** A set of cells of `g`, plus possibly one extra start cell, is no larger than the grid plus one. */
  lemma SeenBound(g: Grid, source: Position, S: set<Position>)
    requires forall q :: q in S ==> q == source || Valid(g, q)
    ensures |S| <= |Cells(g)| + 1
  {
    SubsetCard(S, Cells(g) + {source});
  }

  // ---------------------------------------------------------------- annotations do not matter

  /** The moves read only tile types and flags, so grids with the same layout move alike. */
  lemma SuccFrame(g: Grid, h: Grid, rule: Rule, c: Position)
    requires SameLayout(g, h)
    ensures Succ(g, rule, c) == Succ(h, rule, c)
  {
    assert forall p :: Valid(g, p) <==> Valid(h, p);
    assert forall p :: IsOpen(g, p) <==> IsOpen(h, p);
    match rule
    case Walk(obstacles) =>
      assert forall p :: Valid(g, p) ==> IsWalkable(g, p, obstacles) == IsWalkable(h, p, obstacles);
      assert forall p :: Admit(g, p, obstacles) == Admit(h, p, obstacles);
    case AxisPair =>
    case TwoAhead =>
      assert forall d :: AheadRule(g, c, d) == AheadRule(h, c, d);
  }

  /** Grids with the same layout reach the same cells at the same distances. */
  lemma WithinFrame(g: Grid, h: Grid, rule: Rule, seeds: set<Position>, k: nat)
    requires SameLayout(g, h)
    ensures Within(MovesOf(g, rule), seeds, k) == Within(MovesOf(h, rule), seeds, k)
  {
    forall c ensures MovesOf(g, rule)(c) == MovesOf(h, rule)(c) {
      SuccFrame(g, h, rule, c);
    }
    WithinCongruent(MovesOf(g, rule), MovesOf(h, rule), seeds, k);
  }

  lemma ReachedFrame(g: Grid, h: Grid, rule: Rule, seeds: set<Position>, p: Position)
    requires SameLayout(g, h)
    ensures Reached(MovesOf(g, rule), seeds, p) <==> Reached(MovesOf(h, rule), seeds, p)
  {
    forall k: nat ensures Within(MovesOf(g, rule), seeds, k) == Within(MovesOf(h, rule), seeds, k) {
      WithinFrame(g, h, rule, seeds, k);
    }
  }

  lemma DistFrame(g: Grid, h: Grid, rule: Rule, seeds: set<Position>, p: Position, k: nat)
    requires SameLayout(g, h)
    ensures DistIs(MovesOf(g, rule), seeds, p, k) <==> DistIs(MovesOf(h, rule), seeds, p, k)
  {
    forall c ensures MovesOf(g, rule)(c) == MovesOf(h, rule)(c) {
      SuccFrame(g, h, rule, c);
    }
    DistCongruent(MovesOf(g, rule), MovesOf(h, rule), seeds, p, k);
  }
}
