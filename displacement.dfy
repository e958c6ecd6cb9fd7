/**
  The two displacement passes of the maze. Each pass is a breadth-first search
  from several seeds at once under one of the two displacement rules; a cell is
  marked seen, costed, queued and annotated the moment it is first seen, so
  every reached cell ends up annotated with its distance to the nearest seed and
  every other tile is left as it was.
 */
module Displacement {
  import opened Board
  import opened Traversal
  import opened Rules

  /** The tile of `g0` at column `x` of row `y`, with annotation `which` set to the cell's cost if it has one. */
  function Marked(g0: Grid, which: Annotation, cost: map<Position, nat>, x: nat, y: nat): Tile
    requires y < |g0| && x < |g0[y]|
  {
    if Position(x, y) in cost then g0[y][x].WithDisplacement(which, cost[Position(x, y)]) else g0[y][x]
  }

  /** The first `n` tiles of row `y`, marked. */
  ghost function AnnotateRow(g0: Grid, which: Annotation, cost: map<Position, nat>, y: nat, n: nat): seq<Tile>
    requires y < |g0| && n <= |g0[y]|
  {
    if n == 0 then [] else AnnotateRow(g0, which, cost, y, n - 1) + [Marked(g0, which, cost, n - 1, y)]
  }

  /** The first `n` rows, marked. */
  ghost function AnnotateRows(g0: Grid, which: Annotation, cost: map<Position, nat>, n: nat): Grid
    requires n <= |g0|
  {
    if n == 0 then [] else AnnotateRows(g0, which, cost, n - 1) + [AnnotateRow(g0, which, cost, n - 1, |g0[n - 1]|)]
  }

  /** `g0` with annotation `which` of every costed cell set to its cost, and nothing else changed. */
  ghost function Annotate(g0: Grid, which: Annotation, cost: map<Position, nat>): Grid {
    AnnotateRows(g0, which, cost, |g0|)
  }

  lemma {:induction false} AnnotateRowAt(g0: Grid, which: Annotation, cost: map<Position, nat>, y: nat, n: nat)
    requires y < |g0| && n <= |g0[y]|
    ensures |AnnotateRow(g0, which, cost, y, n)| == n
    ensures forall x :: 0 <= x < n ==> AnnotateRow(g0, which, cost, y, n)[x] == Marked(g0, which, cost, x, y)
  {
    if n > 0 {
      AnnotateRowAt(g0, which, cost, y, n - 1);
    }
  }

  lemma {:induction false} AnnotateRowsAt(g0: Grid, which: Annotation, cost: map<Position, nat>, n: nat)
    requires n <= |g0|
    ensures |AnnotateRows(g0, which, cost, n)| == n
    ensures forall y :: 0 <= y < n ==> AnnotateRows(g0, which, cost, n)[y] == AnnotateRow(g0, which, cost, y, |g0[y]|)
  {
    if n > 0 {
      AnnotateRowsAt(g0, which, cost, n - 1);
    }
  }

  /** The annotated grid has the original's shape. */
  lemma AnnotateShape(g0: Grid, which: Annotation, cost: map<Position, nat>)
    ensures |Annotate(g0, which, cost)| == |g0|
    ensures forall y :: 0 <= y < |g0| ==> |Annotate(g0, which, cost)[y]| == |g0[y]|
  {
    AnnotateRowsAt(g0, which, cost, |g0|);
    forall y | 0 <= y < |g0| ensures |Annotate(g0, which, cost)[y]| == |g0[y]| {
      AnnotateRowAt(g0, which, cost, y, |g0[y]|);
    }
  }

  /** Each tile of the annotated grid is the original, annotated if costed. */
  lemma AnnotateAt(g0: Grid, which: Annotation, cost: map<Position, nat>, p: Position)
    requires Valid(g0, p)
    ensures Valid(Annotate(g0, which, cost), p)
    ensures At(Annotate(g0, which, cost), p) ==
            if p in cost then At(g0, p).WithDisplacement(which, cost[p]) else At(g0, p)
  {
    AnnotateRowsAt(g0, which, cost, |g0|);
    AnnotateRowAt(g0, which, cost, p.y, |g0[p.y]|);
  }

  /** Two grids with the same rows, tile for tile, are equal. */
  lemma SameTiles(a: Grid, b: Grid)
    requires |a| == |b| && forall y :: 0 <= y < |a| ==> |a[y]| == |b[y]|
    requires forall y, x :: 0 <= y < |a| && 0 <= x < |a[y]| ==> a[y][x] == b[y][x]
    ensures a == b
  {
    forall y | 0 <= y < |a| ensures a[y] == b[y] {
    }
  }

  /** Annotating never changes the shape, a tile's type or its flag, so the rules see the same board. */
  lemma AnnotateLayout(g0: Grid, which: Annotation, cost: map<Position, nat>)
    ensures SameLayout(g0, Annotate(g0, which, cost))
  {
    var g := Annotate(g0, which, cost);
    AnnotateShape(g0, which, cost);
    forall p | Valid(g0, p)
      ensures Valid(g, p) && At(g0, p).kind == At(g, p).kind && At(g0, p).walkable == At(g, p).walkable
    {
      AnnotateAt(g0, which, cost, p);
    }
  }

  /** With nothing costed, the annotated grid is the original. */
  lemma AnnotateNone(g0: Grid, which: Annotation)
    ensures Annotate(g0, which, map[]) == g0
  {
    var g := Annotate(g0, which, map[]);
    forall p | Valid(g0, p) ensures Valid(g, p) && At(g, p) == At(g0, p) {
      AnnotateAt(g0, which, map[], p);
    }
    AnnotateShape(g0, which, map[]);
    forall y, x | 0 <= y < |g| && 0 <= x < |g[y]| ensures g[y][x] == g0[y][x] {
      assert Valid(g0, Position(x, y));
    }
    SameTiles(g, g0);
  }

  /** Writing cost `k` into the tile of a valid cell is annotating it with `k`. */
  lemma AnnotateOne(g0: Grid, which: Annotation, cost: map<Position, nat>, q: Position, k: nat)
    requires Valid(g0, q)
    ensures Valid(Annotate(g0, which, cost), q)
    ensures SetAt(Annotate(g0, which, cost), q, At(Annotate(g0, which, cost), q).WithDisplacement(which, k)) ==
            Annotate(g0, which, cost[q := k])
  {
    AnnotateAt(g0, which, cost, q);
    var g := Annotate(g0, which, cost);
    var a := SetAt(g, q, At(g, q).WithDisplacement(which, k));
    var b := Annotate(g0, which, cost[q := k]);
    AnnotateShape(g0, which, cost);
    AnnotateShape(g0, which, cost[q := k]);
    forall y, x | 0 <= y < |a| && 0 <= x < |a[y]| ensures a[y][x] == b[y][x] {
      var p := Position(x, y);
      AnnotateAt(g0, which, cost, p);
      AnnotateAt(g0, which, cost[q := k], p);
      if p == q && q in cost {
        var t := g0[y][x];
        assert t.WithDisplacement(which, cost[q]).WithDisplacement(which, k) == t.WithDisplacement(which, k);
      }
    }
    SameTiles(a, b);
  }

  // ---------------------------------------------------------------- the seeding loop

  /**
    The seeding loop of a pass: every seed, in order, is queued, marked seen,
    given cost zero and has annotation `which` of its tile set to zero. A seed
    listed twice is queued twice.
   */
  method PlantSeeds(g0: Grid, which: Annotation, seeds: seq<Position>)
    returns (g: Grid, frontier: seq<Position>, interior: set<Position>, cost: map<Position, nat>)
    requires forall i :: 0 <= i < |seeds| ==> Valid(g0, seeds[i])
    ensures frontier == seeds && interior == SeedSet(seeds)
    ensures cost.Keys == interior && forall p :: p in cost ==> cost[p] == 0
    ensures g == Annotate(g0, which, cost)
  {
    g, frontier, interior, cost := g0, [], {}, map[];
    AnnotateNone(g0, which);
    for i := 0 to |seeds|
      invariant frontier == seeds[..i] && interior == SeedSet(seeds[..i])
      invariant cost.Keys == interior && forall p :: p in cost ==> cost[p] == 0
      invariant g == Annotate(g0, which, cost)
    {
      var s := seeds[i];
      assert seeds[..i + 1] == seeds[..i] + [s];
      AnnotateOne(g0, which, cost, s, 0);
      frontier := frontier + [s];
      interior := interior + {s};
      cost := cost[s := 0];
      g := SetAt(g, s, At(g, s).WithDisplacement(which, 0));
    }
    assert seeds[..|seeds|] == seeds;
  }

  // ---------------------------------------------------------------- one expansion

  /**
    The probe of a pass around `c`, reading the tiles one and two steps away
    without bounds checks: it admits exactly the moves of the pass's rule.
   */
  method Probe(g: Grid, rule: Rule, c: Position) returns (r: seq<Position>)
    requires !rule.Walk? && Surrounded(g, c) && forall p :: IsOpen(g, p) ==> Surrounded(g, p)
    ensures r == Succ(g, rule, c)
  {
    if rule.AxisPair? {
      r := AxisPairProbe(g, c);
    } else {
      r := TwoAheadProbe(g, c);
    }
  }

  /**
    The inner loop of a pass: every cell of `neighbors` not seen before gets
    cost `k`, is queued and marked seen, and has annotation `which` of its tile
    set to `k`. Cells seen before, including a repeat within `neighbors`, are
    left alone. The grid is the pass's starting grid `g0` annotated with the
    costs, before and after.
   */
  method Touch(ghost g0: Grid, g: Grid, which: Annotation, neighbors: seq<Position>, k: nat,
               frontier: seq<Position>, interior: set<Position>, cost: map<Position, nat>)
    returns (g': Grid, frontier': seq<Position>, interior': set<Position>, cost': map<Position, nat>)
    requires forall q :: q in neighbors ==> Valid(g0, q)
    requires g == Annotate(g0, which, cost)
    ensures interior' == interior + SeedSet(neighbors)
    ensures frontier' == frontier + Fresh(neighbors, interior)
    ensures |frontier'| >= |frontier| && frontier'[..|frontier|] == frontier
    ensures forall i :: |frontier| <= i < |frontier'| ==> frontier'[i] in neighbors && frontier'[i] !in interior
    ensures forall q :: q in neighbors && q !in interior ==> q in frontier'
    ensures forall q :: q in cost' <==> q in cost || (q in neighbors && q !in interior)
    ensures forall q :: q in cost' ==> cost'[q] == if q in neighbors && q !in interior then k else cost[q]
    ensures g' == Annotate(g0, which, cost')
  {
    g', frontier', interior', cost' := g, frontier, interior, cost;
    for i := 0 to |neighbors|
      invariant interior' == interior + SeedSet(neighbors[..i])
      invariant frontier' == frontier + Fresh(neighbors[..i], interior)
      invariant forall q :: q in cost' <==> q in cost || (q in interior' && q !in interior)
      invariant forall q :: q in cost' ==> cost'[q] == if q in interior' && q !in interior then k else cost[q]
      invariant g' == Annotate(g0, which, cost')
    {
      var q := neighbors[i];
      FreshStep(neighbors, i, interior, interior');
      if q !in interior' {
        AnnotateOne(g0, which, cost', q, k);
        cost' := cost'[q := k];
        frontier' := frontier' + [q];
        interior' := interior' + {q};
        g' := SetAt(g', q, At(g', q).WithDisplacement(which, k));
      }
    }
    assert neighbors[..|neighbors|] == neighbors;
    FreshAppended(frontier, neighbors, interior, frontier');
  }

  // ---------------------------------------------------------------- the invariant of a pass

  /**
    What a pass keeps while it works off its queue: the cells it has seen, the
    order of its queue, and how far it has covered.
   */
  ghost predicate Spreading(g0: Grid, m: Moves, S: set<Position>, Dist: (Position, nat) -> bool,
                            frontier: seq<Position>, expanded: set<Position>, interior: set<Position>,
                            cost: map<Position, nat>) {
    Inside(g0, interior) && Costed(S, Dist, interior, cost) && Tracked(m, frontier, expanded, interior) &&
    Queued(frontier, cost) &&
    CoveredTo(Dist, interior, frontier, cost)
  }

  /** The cells seen so far are cells of the board, walled in. */
  ghost predicate Inside(g0: Grid, interior: set<Position>) {
    forall p :: p in interior ==> Valid(g0, p) && Surrounded(g0, p)
  }

  /** The cells seen so far include the seeds and are costed at their distance from the nearest seed. */
  ghost predicate Costed(S: set<Position>, Dist: (Position, nat) -> bool, interior: set<Position>, cost: map<Position, nat>) {
    S <= interior && cost.Keys == interior && forall p :: p in interior ==> Dist(p, cost[p])
  }

  /** Every seen cell is expanded or still queued, and every move of an expanded cell has been seen. */
  ghost predicate Tracked(m: Moves, frontier: seq<Position>, expanded: set<Position>, interior: set<Position>) {
    expanded <= interior &&
    (forall p :: p in interior ==> p in expanded || p in frontier) &&
    (forall i :: 0 <= i < |frontier| ==> frontier[i] in interior) &&
    (forall u, q :: u in expanded && q in m(u) ==> q in interior)
  }

  /** Queued costs never decrease and span two layers at most. */
  ghost predicate Queued(frontier: seq<Position>, cost: map<Position, nat>) {
    (forall i :: 0 <= i < |frontier| ==> frontier[i] in cost) &&
    (forall i, j :: 0 <= i <= j < |frontier| ==> cost[frontier[i]] <= cost[frontier[j]] <= cost[frontier[0]] + 1)
  }

  /** Every cell no farther than the head of the queue has been seen. */
  ghost predicate CoveredTo(Dist: (Position, nat) -> bool, interior: set<Position>, frontier: seq<Position>,
                            cost: map<Position, nat>) {
    frontier != [] && frontier[0] in cost ==> forall p, k: nat :: Dist(p, k) && k <= cost[frontier[0]] ==> p in interior
  }

  /** The seeded queue satisfies the invariant. */
  lemma SpreadStart(g0: Grid, m: Moves, seeds: seq<Position>, Dist: (Position, nat) -> bool,
                    interior: set<Position>, cost: map<Position, nat>)
    requires Enclosed(g0, seeds) && IsDistance(m, SeedSet(seeds), Dist)
    requires interior == SeedSet(seeds) && cost.Keys == interior && forall p :: p in cost ==> cost[p] == 0
    ensures Spreading(g0, m, SeedSet(seeds), Dist, seeds, {}, interior, cost)
  {
    var S := SeedSet(seeds);
    forall p | p in interior ensures Dist(p, 0) {
      SeedDistance(m, S, Dist, p);
    }
    forall p, k: nat | Dist(p, k) && k <= 0 ensures p in interior {
      assert DistIs(m, S, p, k);
    }
  }

  /**
    First touch: once every cell no farther than `current` has been seen, a
    move of `current` to a cell not yet seen is one layer further out.
   */
  lemma FirstTouch(m: Moves, S: set<Position>, Dist: (Position, nat) -> bool,
                   current: Position, c: nat, interior: set<Position>)
    requires IsDistance(m, S, Dist) && Dist(current, c)
    requires forall p, k: nat :: Dist(p, k) && k <= c ==> p in interior
    ensures forall q :: q in m(current) && q !in interior ==> Dist(q, c + 1)
  {
    assert DistIs(m, S, current, c);
    forall q | q in m(current) && q !in interior ensures Dist(q, c + 1) {
      DistNext(m, S, current, c, q);
      if q in Within(m, S, c) {
        var d := SomeDist(m, S, q, c);
      }
      assert DistIs(m, S, q, c + 1);
    }
  }

  /**
    When the head of the queue moves on to the next layer, every cell of that
    layer has been seen: it is one move from a cell of the layer before, which
    is no longer queued and so has been expanded.
   */
  lemma CoverNextLayer(m: Moves, S: set<Position>, Dist: (Position, nat) -> bool, c: nat,
                       frontier0: seq<Position>, interior0: set<Position>, cost0: map<Position, nat>,
                       frontier': seq<Position>, expanded': set<Position>, interior': set<Position>, cost': map<Position, nat>)
    requires IsDistance(m, S, Dist) && frontier0 != [] && frontier' != []
    requires forall p, k: nat :: Dist(p, k) && k <= c ==> p in interior0
    requires cost0.Keys == interior0 && forall p :: p in interior0 ==> Dist(p, cost0[p])
    requires forall p :: p in interior0 ==> p in frontier0[1..] || p in expanded'
    requires forall p :: p in frontier0[1..] ==> p in frontier'
    requires forall p :: p in interior0 ==> p in cost' && cost'[p] == cost0[p]
    requires forall p :: p in frontier' ==> p in cost' && cost'[p] >= c + 1
    requires forall u, q :: u in expanded' && q in m(u) ==> q in interior'
    requires interior0 <= interior'
    ensures forall p, k: nat :: Dist(p, k) && k <= c + 1 ==> p in interior'
  {
    forall p, k: nat | Dist(p, k) && k <= c + 1 ensures p in interior' {
      if k == c + 1 {
        assert DistIs(m, S, p, c + 1);
        var u := DistStep(m, S, p, c);
        assert Dist(u, c);
        DistanceUnique(m, S, Dist, u, cost0[u], c);
      }
    }
  }

  /** The moves of the expanded cell are cells of the board, walled in. */
  lemma InsideStep(g0: Grid, N: seq<Position>, interior0: set<Position>, interior': set<Position>)
    requires Inside(g0, interior0) && forall q :: q in N ==> Valid(g0, q) && Surrounded(g0, q)
    requires interior' == interior0 + SeedSet(N)
    ensures Inside(g0, interior')
  {
  }

  /** The cells seen stay seen, and the cells first seen now are costed one beyond the expanded cell. */
  lemma CostedStep(m: Moves, S: set<Position>, Dist: (Position, nat) -> bool,
                   frontier0: seq<Position>, interior0: set<Position>, cost0: map<Position, nat>,
                   interior': set<Position>, cost': map<Position, nat>)
    requires IsDistance(m, S, Dist)
    requires frontier0 != [] && frontier0[0] in interior0 && Costed(S, Dist, interior0, cost0)
    requires CoveredTo(Dist, interior0, frontier0, cost0)
    requires interior' == interior0 + SeedSet(m(frontier0[0]))
    requires forall q :: q in cost' <==> q in cost0 || (q in m(frontier0[0]) && q !in interior0)
    requires forall q :: q in cost' ==>
               cost'[q] == if q in m(frontier0[0]) && q !in interior0 then cost0[frontier0[0]] + 1 else cost0[q]
    ensures Costed(S, Dist, interior', cost')
  {
    var current, c := frontier0[0], cost0[frontier0[0]];
    assert forall p, k: nat :: Dist(p, k) && k <= c ==> p in interior0;
    FirstTouch(m, S, Dist, current, c, interior0);
    assert cost'.Keys == interior' by {
      forall q ensures q in cost' <==> q in interior' {
        assert q in SeedSet(m(current)) <==> q in m(current);
      }
    }
  }

  /** Expanding the head moves it from the queue to the expanded cells, and queues its unseen moves. */
  lemma TrackedStep(m: Moves, frontier0: seq<Position>, expanded0: set<Position>, interior0: set<Position>,
                    frontier': seq<Position>, interior': set<Position>)
    requires frontier0 != [] && Tracked(m, frontier0, expanded0, interior0)
    requires interior' == interior0 + SeedSet(m(frontier0[0]))
    requires |frontier'| >= |frontier0| - 1 && frontier'[..|frontier0| - 1] == frontier0[1..]
    requires forall i :: |frontier0| - 1 <= i < |frontier'| ==> frontier'[i] in m(frontier0[0]) && frontier'[i] !in interior0
    requires forall q :: q in m(frontier0[0]) && q !in interior0 ==> q in frontier'
    ensures Tracked(m, frontier', expanded0 + {frontier0[0]}, interior')
  {
    var n := |frontier0| - 1;
    assert forall i :: 0 <= i < n ==> frontier'[i] == frontier0[i + 1];
    assert forall p :: p in frontier0[1..] ==> p in frontier';
  }

  /** The queue stays in layer order: what is left of it, then the next layer. */
  lemma QueuedStep(frontier0: seq<Position>, cost0: map<Position, nat>, frontier': seq<Position>, cost': map<Position, nat>)
    requires frontier0 != [] && Queued(frontier0, cost0)
    requires |frontier'| >= |frontier0| - 1 && frontier'[..|frontier0| - 1] == frontier0[1..]
    requires forall q :: q in cost0 ==> q in cost' && cost'[q] == cost0[q]
    requires forall i :: |frontier0| - 1 <= i < |frontier'| ==>
               frontier'[i] in cost' && cost'[frontier'[i]] == cost0[frontier0[0]] + 1
    ensures Queued(frontier', cost')
    ensures forall p :: p in frontier' ==> cost0[frontier0[0]] <= cost'[p] <= cost0[frontier0[0]] + 1
  {
    var n := |frontier0| - 1;
    assert forall i :: 0 <= i < n ==> frontier'[i] == frontier0[i + 1];
  }

  /** How far the pass has covered keeps up with the head of the queue. */
  lemma CoveredStep(g0: Grid, m: Moves, S: set<Position>, Dist: (Position, nat) -> bool,
                    frontier0: seq<Position>, expanded0: set<Position>, interior0: set<Position>, cost0: map<Position, nat>,
                    frontier': seq<Position>, interior': set<Position>, cost': map<Position, nat>)
    requires IsDistance(m, S, Dist) && frontier0 != []
    requires Costed(S, Dist, interior0, cost0) && Tracked(m, frontier0, expanded0, interior0)
    requires CoveredTo(Dist, interior0, frontier0, cost0)
    requires interior' == interior0 + SeedSet(m(frontier0[0]))
    requires |frontier'| >= |frontier0| - 1 && frontier'[..|frontier0| - 1] == frontier0[1..]
    requires forall i :: |frontier0| - 1 <= i < |frontier'| ==> frontier'[i] in m(frontier0[0]) && frontier'[i] !in interior0
    requires forall q :: q in m(frontier0[0]) && q !in interior0 ==> q in frontier'
    requires forall q :: q in cost' <==> q in cost0 || (q in m(frontier0[0]) && q !in interior0)
    requires forall q :: q in cost' ==>
               cost'[q] == if q in m(frontier0[0]) && q !in interior0 then cost0[frontier0[0]] + 1 else cost0[q]
    requires Queued(frontier', cost')
    requires forall p :: p in frontier' ==> cost0[frontier0[0]] <= cost'[p] <= cost0[frontier0[0]] + 1
    ensures CoveredTo(Dist, interior', frontier', cost')
  {
    var c := cost0[frontier0[0]];
    assert frontier0[0] in interior0;
    assert forall p, k: nat :: Dist(p, k) && k <= c ==> p in interior0;
    if frontier' != [] && cost'[frontier'[0]] == c + 1 {
      var n := |frontier0| - 1;
      assert forall i :: 0 <= i < n ==> frontier'[i] == frontier0[i + 1];
      assert forall p :: p in interior0 ==> p in frontier0[1..] || p in expanded0 + {frontier0[0]};
      CoverNextLayer(m, S, Dist, c, frontier0, interior0, cost0, frontier', expanded0 + {frontier0[0]}, interior', cost');
    }
  }

  /** Expanding the head of the queue and touching its moves keeps the invariant. */
  lemma SpreadStep(g0: Grid, m: Moves, S: set<Position>, Dist: (Position, nat) -> bool,
                   frontier0: seq<Position>, expanded0: set<Position>, interior0: set<Position>, cost0: map<Position, nat>,
                   neighbors: seq<Position>, rest: seq<Position>, k: nat,
                   frontier': seq<Position>, interior': set<Position>, cost': map<Position, nat>)
    requires IsDistance(m, S, Dist)
    requires frontier0 != [] && Spreading(g0, m, S, Dist, frontier0, expanded0, interior0, cost0)
    requires neighbors == m(frontier0[0]) && rest == frontier0[1..] && k == cost0[frontier0[0]] + 1
    requires forall q :: q in neighbors ==> Valid(g0, q) && Surrounded(g0, q)
    requires interior' == interior0 + SeedSet(neighbors)
    requires |frontier'| >= |rest| && frontier'[..|rest|] == rest
    requires forall i :: |rest| <= i < |frontier'| ==> frontier'[i] in neighbors && frontier'[i] !in interior0
    requires forall q :: q in neighbors && q !in interior0 ==> q in frontier'
    requires forall q :: q in cost' <==> q in cost0 || (q in neighbors && q !in interior0)
    requires forall q :: q in cost' ==> cost'[q] == if q in neighbors && q !in interior0 then k else cost0[q]
    ensures Spreading(g0, m, S, Dist, frontier', expanded0 + {frontier0[0]}, interior', cost')
  {
    InsideStep(g0, neighbors, interior0, interior');
    CostedStep(m, S, Dist, frontier0, interior0, cost0, interior', cost');
    TrackedStep(m, frontier0, expanded0, interior0, frontier', interior');
    QueuedStep(frontier0, cost0, frontier', cost');
    CoveredStep(g0, m, S, Dist, frontier0, expanded0, interior0, cost0, frontier', interior', cost');
  }

  /**
    A pass whose queue has run out has seen exactly the reached cells, so its
    annotations are their distances and every other tile is unchanged.
   */
  lemma SpreadDone(g0: Grid, m: Moves, S: set<Position>, Dist: (Position, nat) -> bool, which: Annotation,
                   g: Grid, expanded: set<Position>, interior: set<Position>, cost: map<Position, nat>)
    requires IsDistance(m, S, Dist)
    requires Spreading(g0, m, S, Dist, [], expanded, interior, cost) && g == Annotate(g0, which, cost)
    requires SameLayout(g0, g)
    ensures forall p :: Valid(g0, p) && Reached(m, S, p) ==>
              At(g, p) == At(g0, p).WithDisplacement(which, At(g, p).Displacement(which)) &&
              Dist(p, At(g, p).Displacement(which))
    ensures forall p :: Valid(g0, p) && !Reached(m, S, p) ==> At(g, p) == At(g0, p)
  {
    forall p | p in interior ensures Reached(m, S, p) {
      assert DistIs(m, S, p, cost[p]);
      assert p in Within(m, S, cost[p]);
    }
    forall p | Reached(m, S, p) ensures p in interior {
      assert forall u :: u in interior ==> Closed(m, u, interior);
      ClosedContainsReached(m, S, interior, p);
    }
    forall p | Valid(g0, p) ensures At(g, p) == if p in cost then At(g0, p).WithDisplacement(which, cost[p]) else At(g0, p) {
      AnnotateAt(g0, which, cost, p);
    }
  }

  /** `m` is the move function of `rule` on `g0`. */
  ghost predicate Follows(m: Moves, g0: Grid, rule: Rule) {
    forall c :: m(c) == Succ(g0, rule, c)
  }

  /** A displacement move lands on an open cell, which the enclosure surrounds. */
  lemma MovesInside(g0: Grid, rule: Rule, seeds: seq<Position>, c: Position)
    requires !rule.Walk? && Enclosed(g0, seeds)
    ensures forall q :: q in Succ(g0, rule, c) ==> Valid(g0, q) && Surrounded(g0, q)
  {
    forall q | q in Succ(g0, rule, c) ensures Valid(g0, q) && Surrounded(g0, q) {
      MoveShape(g0, rule, c, q);
    }
  }

  /** Each expansion sees a new cell of the grid or shortens the queue. */
  lemma SpreadProgress(g0: Grid, frontier0: seq<Position>, interior0: set<Position>,
                       frontier': seq<Position>, interior': set<Position>)
    requires frontier0 != [] && interior0 <= interior' && interior' <= Cells(g0)
    requires |frontier'| >= |frontier0| - 1
    requires forall i :: |frontier0| - 1 <= i < |frontier'| ==> frontier'[i] in interior' && frontier'[i] !in interior0
    ensures |Cells(g0) - interior'| < |Cells(g0) - interior0| ||
            (|Cells(g0) - interior'| == |Cells(g0) - interior0| && |frontier'| < |frontier0|)
  {
    FewerLeft(Cells(g0), interior0, interior');
    if |frontier'| >= |frontier0| {
      assert frontier'[|frontier0| - 1] in Cells(g0);
    }
  }

  // ---------------------------------------------------------------- a whole pass

  /** The board a pass works on stays enclosed while only annotations change. */
  lemma ProbeReady(g0: Grid, g: Grid, rule: Rule, seeds: seq<Position>, c: Position)
    requires Enclosed(g0, seeds) && SameLayout(g0, g) && Surrounded(g0, c)
    ensures Surrounded(g, c) && forall p :: IsOpen(g, p) ==> Surrounded(g, p)
    ensures Succ(g, rule, c) == Succ(g0, rule, c)
  {
    assert forall p :: Valid(g0, p) <==> Valid(g, p);
    forall p | IsOpen(g, p) ensures Surrounded(g, p) {
      assert IsOpen(g0, p) && Surrounded(g0, p);
    }
    SuccFrame(g0, g, rule, c);
  }

  /**
    One turn of a pass: take the head of the queue, probe its moves on the
    board being annotated, and annotate and queue the ones not seen before at
    one beyond the head's cost.
   */
  method ExpandHead(g0: Grid, rule: Rule, which: Annotation, seeds: seq<Position>, ghost Dist: (Position, nat) -> bool,
                    ghost m: Moves, g: Grid, frontier: seq<Position>, ghost expanded: set<Position>, interior: set<Position>,
                    cost: map<Position, nat>)
    returns (g': Grid, frontier': seq<Position>, interior': set<Position>, cost': map<Position, nat>)
    requires !rule.Walk? && Enclosed(g0, seeds)
    requires Follows(m, g0, rule) && IsDistance(m, SeedSet(seeds), Dist)
    requires frontier != [] && Spreading(g0, m, SeedSet(seeds), Dist, frontier, expanded, interior, cost)
    requires g == Annotate(g0, which, cost)
    ensures Spreading(g0, m, SeedSet(seeds), Dist, frontier', expanded + {frontier[0]}, interior', cost')
    ensures g' == Annotate(g0, which, cost')
    ensures |Cells(g0) - interior'| < |Cells(g0) - interior| ||
            (|Cells(g0) - interior'| == |Cells(g0) - interior| && |frontier'| < |frontier|)
  {
    ghost var S := SeedSet(seeds);
    var current := frontier[0];
    AnnotateLayout(g0, which, cost);
    ProbeReady(g0, g, rule, seeds, current);
    var neighbors := Probe(g, rule, current);
    assert neighbors == m(current);
    MovesInside(g0, rule, seeds, current);
    g', frontier', interior', cost' := Touch(g0, g, which, neighbors, cost[current] + 1, frontier[1..], interior, cost);
    SpreadStep(g0, m, S, Dist, frontier, expanded, interior, cost, neighbors, frontier[1..], cost[current] + 1,
               frontier', interior', cost');
    SpreadProgress(g0, frontier, interior, frontier', interior');
  }

  /** Expand the head of the queue until the queue runs out. */
  method Drain(g0: Grid, rule: Rule, which: Annotation, seeds: seq<Position>, ghost Dist: (Position, nat) -> bool,
               ghost m: Moves, g: Grid, frontier: seq<Position>, ghost expanded: set<Position>, interior: set<Position>,
               cost: map<Position, nat>)
    returns (g': Grid, ghost expanded': set<Position>, interior': set<Position>, cost': map<Position, nat>)
    requires !rule.Walk? && Enclosed(g0, seeds)
    requires Follows(m, g0, rule) && IsDistance(m, SeedSet(seeds), Dist)
    requires Spreading(g0, m, SeedSet(seeds), Dist, frontier, expanded, interior, cost)
    requires g == Annotate(g0, which, cost)
    ensures Spreading(g0, m, SeedSet(seeds), Dist, [], expanded', interior', cost')
    ensures g' == Annotate(g0, which, cost')
  {
    var queue := frontier;
    g', expanded', interior', cost' := g, expanded, interior, cost;
    while queue != []
      invariant Spreading(g0, m, SeedSet(seeds), Dist, queue, expanded', interior', cost')
      invariant g' == Annotate(g0, which, cost')
      decreases |Cells(g0) - interior'|, |queue|
    {
      ghost var current := queue[0];
      g', queue, interior', cost' := ExpandHead(g0, rule, which, seeds, Dist, m, g', queue, expanded', interior', cost');
      expanded' := expanded' + {current};
    }
  }

  /**
    `g` is `g0` after a pass of `rule` from `seeds` writing annotation `which`:
    the layout is unchanged, every cell the rule reaches from the seeds has its
    annotation set to its distance to the nearest seed, and every other tile is
    unchanged.
   */
  ghost predicate Displaced(g0: Grid, g: Grid, rule: Rule, which: Annotation, seeds: seq<Position>) {
    SameLayout(g0, g) &&
    (forall p :: Valid(g0, p) && Reached(MovesOf(g0, rule), SeedSet(seeds), p) ==>
       At(g, p) == At(g0, p).WithDisplacement(which, At(g, p).Displacement(which)) &&
       DistIs(MovesOf(g0, rule), SeedSet(seeds), p, At(g, p).Displacement(which))) &&
    (forall p :: Valid(g0, p) && !Reached(MovesOf(g0, rule), SeedSet(seeds), p) ==> At(g, p) == At(g0, p))
  }

  /**
    One displacement pass (the body of either block of the code): seed the
    queue, then repeatedly expand its head by the rule's probe.
   */
  method Spread(g0: Grid, rule: Rule, which: Annotation, seeds: seq<Position>) returns (g: Grid)
    requires !rule.Walk? && Enclosed(g0, seeds)
    ensures Displaced(g0, g, rule, which, seeds)
  {
    ghost var m := MovesOf(g0, rule);
    ghost var Dist := (p: Position, k: nat) => DistIs(m, SeedSet(seeds), p, k);
    var frontier, interior, cost;
    g, frontier, interior, cost := PlantSeeds(g0, which, seeds);
    SpreadStart(g0, m, seeds, Dist, interior, cost);
    ghost var expanded;
    g, expanded, interior, cost := Drain(g0, rule, which, seeds, Dist, m, g, frontier, {}, interior, cost);
    AnnotateLayout(g0, which, cost);
    SpreadDone(g0, m, SeedSet(seeds), Dist, which, g, expanded, interior, cost);
  }
}
