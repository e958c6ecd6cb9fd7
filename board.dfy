/**
  The board of a Sokoban maze: tiles, positions and the jagged grid that holds
  them, together with the pure queries the maze answers about it (validity of a
  position, walkability, the walking neighbours of a cell and the two adjacency
  probes used by the displacement passes).
 */
module Board {

  /** A cell address: `x` is the column (the pair's first component), `y` the row. */
  datatype Position = Position(x: int, y: int)

  datatype Direction = Up | Right | Down | Left

  /** One cardinal step; up decreases the row, left decreases the column. */
  function Step(p: Position, d: Direction): (q: Position)
    ensures Adjacent(p, q)
  {
    match d
    case Up => Position(p.x, p.y - 1)
    case Right => Position(p.x + 1, p.y)
    case Down => Position(p.x, p.y + 1)
    case Left => Position(p.x - 1, p.y)
  }

  /** `p` and `q` are one cardinal step apart. */
  predicate Adjacent(p: Position, q: Position) {
    (p.x == q.x && (p.y - q.y == 1 || q.y - p.y == 1)) ||
    (p.y == q.y && (p.x - q.x == 1 || q.x - p.x == 1))
  }

  // ---------------------------------------------------------------- tiles

  datatype TileType = Floor | Obstacle

  /** The largest `size_t` (64 bits): the "not reached" displacement. */
  const Unreached: nat := 0xFFFF_FFFF_FFFF_FFFF

  /** Which of a tile's two displacement annotations a pass writes. */
  datatype Annotation = SourceDisplacement | TargetDisplacement

  datatype Tile = Tile(kind: TileType, walkable: bool, sourceDisplacement: nat, targetDisplacement: nat)
  {
    /** The cached flag agrees with the tile's type. */
    predicate Consistent() {
      walkable == (kind != Obstacle)
    }

    /** The cached walkability flag. */
    function IsWalkable(): (b: bool)
      ensures Consistent() ==> (b <==> kind != Obstacle)
    {
      walkable
    }

    /** Changes the type and recomputes the cached flag; the annotations are kept. */
    function SetType(value: TileType): (t: Tile)
      ensures t.kind == value && t.Consistent()
      ensures t.IsWalkable() <==> value != Obstacle
      ensures t.sourceDisplacement == sourceDisplacement && t.targetDisplacement == targetDisplacement
    {
      this.(walkable := value != Obstacle, kind := value)
    }

    function Displacement(which: Annotation): nat {
      match which
      case SourceDisplacement => sourceDisplacement
      case TargetDisplacement => targetDisplacement
    }

    /** Writes one annotation and leaves every other part of the tile alone. */
    function WithDisplacement(which: Annotation, d: nat): (t: Tile)
      ensures t.Displacement(which) == d
      ensures t.kind == kind && t.walkable == walkable
      ensures forall other: Annotation :: other != which ==> t.Displacement(other) == Displacement(other)
    {
      match which
      case SourceDisplacement => this.(sourceDisplacement := d)
      case TargetDisplacement => this.(targetDisplacement := d)
    }
  }

  /** A default-constructed tile. */
  function NewTile(): (t: Tile)
    ensures t.kind == Floor && t.Consistent() && t.IsWalkable()
    ensures t.sourceDisplacement == Unreached && t.targetDisplacement == Unreached
  {
    Tile(Floor, true, Unreached, Unreached)
  }

  // ---------------------------------------------------------------- the grid

  /** Rows from top to bottom; each row may have its own width. */
  type Grid = seq<seq<Tile>>

  function Height(g: Grid): nat {
    |g|
  }

  function Width(g: Grid, row: int): nat
    requires 0 <= row < Height(g)
  {
    |g[row]|
  }

  predicate Valid(g: Grid, p: Position) {
    0 <= p.y < Height(g) && 0 <= p.x < Width(g, p.y)
  }

  /** The tile at a valid position (the maze's call operator). */
  function At(g: Grid, p: Position): Tile
    requires Valid(g, p)
  {
    g[p.y][p.x]
  }

  /** Every valid position of the grid. */
  function Cells(g: Grid): (r: set<Position>)
    ensures forall p :: p in r <==> Valid(g, p)
  {
    var r := set y, x | 0 <= y < |g| && 0 <= x < |g[y]| :: Position(x, y);
    assert forall p :: Valid(g, p) ==> Position(p.x, p.y) in r;
    r
  }

  /** Replaces the tile at a valid position. */
  function SetAt(g: Grid, p: Position, t: Tile): (r: Grid)
    requires Valid(g, p)
    ensures |r| == |g| && forall y :: 0 <= y < |g| ==> |r[y]| == |g[y]|
    ensures forall q :: Valid(g, q) ==> At(r, q) == if q == p then t else At(g, q)
  {
    g[p.y := g[p.y][p.x := t]]
  }

  /** Every tile's cached flag agrees with its type. */
  ghost predicate Consistent(g: Grid) {
    forall p :: Valid(g, p) ==> At(g, p).Consistent()
  }

  /** Same shape, and every tile has the same type and flag. */
  ghost predicate SameLayout(g: Grid, h: Grid) {
    |g| == |h| &&
    (forall y :: 0 <= y < |g| ==> |g[y]| == |h[y]|) &&
    (forall p :: Valid(g, p) ==> Valid(h, p) && At(g, p).kind == At(h, p).kind && At(g, p).walkable == At(h, p).walkable)
  }

  /** A valid position whose tile is not an obstacle. */
  predicate IsOpen(g: Grid, p: Position) {
    Valid(g, p) && At(g, p).kind != Obstacle
  }

  // ---------------------------------------------------------------- walking

  /** The tile is walkable and no dynamic obstacle stands on `p`. */
  function IsWalkable(g: Grid, p: Position, obstacles: seq<Position>): (b: bool)
    requires Valid(g, p)
    ensures Consistent(g) ==> (b <==> At(g, p).kind != Obstacle && p !in obstacles)
  {
    if !At(g, p).IsWalkable() then false else p !in obstacles
  }

  /** `[p]` when `p` is a valid, walkable position, otherwise nothing. */
  function Admit(g: Grid, p: Position, obstacles: seq<Position>): seq<Position> {
    if Valid(g, p) && IsWalkable(g, p, obstacles) then [p] else []
  }

  /** Rank of a step from `c` in the fixed probing order up, right, down, left. */
  function DirectionRank(c: Position, q: Position): int {
    if q == Step(c, Up) then 0
    else if q == Step(c, Right) then 1
    else if q == Step(c, Down) then 2
    else if q == Step(c, Left) then 3
    else 4
  }

  /** The cells of `r` come in strictly increasing probing order around `c`. */
  predicate InProbeOrder(c: Position, r: seq<Position>) {
    forall i, j :: 0 <= i < j < |r| ==> DirectionRank(c, r[i]) < DirectionRank(c, r[j])
  }

  lemma PrependInOrder(c: Position, a: seq<Position>, rest: seq<Position>)
    requires |a| <= 1 && InProbeOrder(c, rest)
    requires forall p, q :: p in a && q in rest ==> DirectionRank(c, p) < DirectionRank(c, q)
    ensures InProbeOrder(c, a + rest)
  {
    if |a| == 1 {
      forall i, j | 0 <= i < j < |a + rest|
        ensures DirectionRank(c, (a + rest)[i]) < DirectionRank(c, (a + rest)[j])
      {
        if i == 0 {
          assert (a + rest)[j] == rest[j - 1];
        } else {
          assert (a + rest)[i] == rest[i - 1] && (a + rest)[j] == rest[j - 1];
        }
      }
    }
  }

  /** The four admissions, concatenated in probing order. */
  lemma AdmittedInOrder(g: Grid, c: Position, obstacles: seq<Position>)
    ensures InProbeOrder(c, Admit(g, Step(c, Up), obstacles) + (Admit(g, Step(c, Right), obstacles) +
                            (Admit(g, Step(c, Down), obstacles) + Admit(g, Step(c, Left), obstacles))))
  {
    var up, right, down, left := Step(c, Up), Step(c, Right), Step(c, Down), Step(c, Left);
    assert DirectionRank(c, up) == 0 && DirectionRank(c, right) == 1;
    assert DirectionRank(c, down) == 2 && DirectionRank(c, left) == 3;
    var l := Admit(g, left, obstacles);
    var dl := Admit(g, down, obstacles) + l;
    PrependInOrder(c, Admit(g, down, obstacles), l);
    var rdl := Admit(g, right, obstacles) + dl;
    PrependInOrder(c, Admit(g, right, obstacles), dl);
    PrependInOrder(c, Admit(g, up, obstacles), rdl);
  }

  /** The cells a walker on `current` can step onto, in the order up, right, down, left. */
  function Neighbors(g: Grid, current: Position, obstacles: seq<Position>): (r: seq<Position>)
    ensures |r| <= 4
    ensures forall q :: q in r <==> Adjacent(current, q) && Valid(g, q) && IsWalkable(g, q, obstacles)
  {
    var up, right, down, left := Step(current, Up), Step(current, Right), Step(current, Down), Step(current, Left);
    assert forall q :: Adjacent(current, q) ==> q == up || q == right || q == down || q == left;
    Admit(g, up, obstacles) + (Admit(g, right, obstacles) + (Admit(g, down, obstacles) + Admit(g, left, obstacles)))
  }

  /** The walking neighbours come in the order up, right, down, left. */
  lemma NeighborsInProbeOrder(g: Grid, current: Position, obstacles: seq<Position>)
    ensures InProbeOrder(current, Neighbors(g, current, obstacles))
  {
    AdmittedInOrder(g, current, obstacles);
  }

  // ---------------------------------------------------------------- the displacement probes

  /** All four neighbours of `p` are valid positions. */
  predicate Surrounded(g: Grid, p: Position) {
    Valid(g, Step(p, Up)) && Valid(g, Step(p, Right)) && Valid(g, Step(p, Down)) && Valid(g, Step(p, Left))
  }

  lemma SurroundedStep(g: Grid, p: Position, d: Direction)
    requires Surrounded(g, p)
    ensures Valid(g, Step(p, d))
  {
  }

  /**
    The board is closed off: every seed is a valid, surrounded position and every
    non-obstacle tile is surrounded, so probing one or two steps from any cell a
    displacement pass visits never leaves the grid.
   */
  ghost predicate Enclosed(g: Grid, seeds: seq<Position>) {
    (forall i :: 0 <= i < |seeds| ==> Valid(g, seeds[i]) && Surrounded(g, seeds[i])) &&
    (forall p :: IsOpen(g, p) ==> Surrounded(g, p))
  }

  /** Axis-pair rule: up and down together if both are open, then left and right together. */
  function AxisPairRule(g: Grid, c: Position): seq<Position> {
    (if IsOpen(g, Step(c, Up)) && IsOpen(g, Step(c, Down)) then [Step(c, Up), Step(c, Down)] else []) +
    (if IsOpen(g, Step(c, Left)) && IsOpen(g, Step(c, Right)) then [Step(c, Left), Step(c, Right)] else [])
  }

  /** Two-ahead rule for one direction: the neighbour if it and the cell beyond it are open. */
  function AheadRule(g: Grid, c: Position, d: Direction): seq<Position> {
    if IsOpen(g, Step(c, d)) && IsOpen(g, Step(Step(c, d), d)) then [Step(c, d)] else []
  }

  function TwoAheadRule(g: Grid, c: Position): seq<Position> {
    AheadRule(g, c, Up) + (AheadRule(g, c, Right) + (AheadRule(g, c, Down) + AheadRule(g, c, Left)))
  }

  /**
    The source pass's probe as the code does it: it reads the tiles above,
    below, left and right of `c` without a bounds check. On a surrounded cell it
    admits exactly what the axis-pair rule admits.
   */
  function AxisPairProbe(g: Grid, c: Position): (r: seq<Position>)
    requires Surrounded(g, c)
    ensures r == AxisPairRule(g, c)
    ensures forall q :: q in r ==> Adjacent(c, q) && IsOpen(g, q)
  {
    (if At(g, Step(c, Up)).kind != Obstacle && At(g, Step(c, Down)).kind != Obstacle
     then [Step(c, Up), Step(c, Down)] else []) +
    (if At(g, Step(c, Left)).kind != Obstacle && At(g, Step(c, Right)).kind != Obstacle
     then [Step(c, Left), Step(c, Right)] else [])
  }

  function AheadProbe(g: Grid, c: Position, d: Direction): (r: seq<Position>)
    requires Valid(g, Step(c, d))
    requires forall p :: IsOpen(g, p) ==> Surrounded(g, p)
    ensures r == AheadRule(g, c, d)
    ensures forall q :: q in r ==> Adjacent(c, q) && IsOpen(g, q)
  {
    if At(g, Step(c, d)).kind != Obstacle &&
       (assert IsOpen(g, Step(c, d)); SurroundedStep(g, Step(c, d), d); At(g, Step(Step(c, d), d)).kind != Obstacle)
    then [Step(c, d)] else []
  }

  /**
    The target pass's probe as the code does it: one and two steps in each
    direction, unchecked, relying on the short-circuit to probe two ahead only
    past an open (hence surrounded) cell. Equal to the two-ahead rule.
   */
  function TwoAheadProbe(g: Grid, c: Position): (r: seq<Position>)
    requires Surrounded(g, c)
    requires forall p :: IsOpen(g, p) ==> Surrounded(g, p)
    ensures r == TwoAheadRule(g, c)
    ensures forall q :: q in r ==> Adjacent(c, q) && IsOpen(g, q)
  {
    AheadProbe(g, c, Up) + (AheadProbe(g, c, Right) + (AheadProbe(g, c, Down) + AheadProbe(g, c, Left)))
  }
}
