/**
  The graph theory behind the maze's breadth-first searches, over any move
  function `succ` (which cells a search may move to from a cell, in order).
  `Within(k)` is the set of cells some
  seed reaches in at most `k` moves, defined layer by layer; `DistIs` says a
  cell's shortest distance; `IsWalk` is an explicit sequence of moves. The
  lemmas connect the layers with walks, give the covering argument every search
  loop uses to prove it found everything, and state that cardinal adjacency is
  bipartite, which is what keeps the predecessor search shortest.
 */
module Traversal {
  import opened Board

  /** The cells a search may move to from a cell, in the order it probes them. */
  type Moves = Position -> seq<Position>

  /** Every move is one cardinal step. */
  ghost predicate Cardinal(succ: Moves) {
    forall c, q :: q in succ(c) ==> Adjacent(c, q)
  }

  lemma CardinalMove(succ: Moves, u: Position, p: Position)
    requires Cardinal(succ) && p in succ(u)
    ensures Adjacent(u, p)
  {
  }

  /** `S` together with every cell one move away from a cell of `S`. */
  ghost function Expand(succ: Moves, S: set<Position>): (r: set<Position>)
    ensures S <= r
    ensures forall u, q {:trigger q in succ(u), u in S} :: u in S && q in succ(u) ==> q in r
  {
    S + set u, q | u in S && q in succ(u) :: q
  }

  /** A cell the expansion added is one move from some cell of `S`. */
  lemma ExpandOrigin(succ: Moves, S: set<Position>, q: Position) returns (u: Position)
    requires q in Expand(succ, S) && q !in S
    ensures u in S && q in succ(u)
  {
    u :| u in S && q in succ(u);
  }

  /** The cells reached from `seeds` in at most `k` moves. */
  ghost function Within(succ: Moves, seeds: set<Position>, k: nat): set<Position> {
    if k == 0 then seeds else Expand(succ, Within(succ, seeds, k - 1))
  }

  ghost predicate Reached(succ: Moves, seeds: set<Position>, p: Position) {
    exists k: nat :: p in Within(succ, seeds, k)
  }

  /** `k` is the least number of moves from the nearest seed to `p`. */
  ghost predicate DistIs(succ: Moves, seeds: set<Position>, p: Position, k: nat) {
    p in Within(succ, seeds, k) && (k > 0 ==> p !in Within(succ, seeds, k - 1))
  }

  /**
    `Dist` tells each cell's distance from the nearest seed under `succ`. The
    searches' invariants are stated over such a relation, so that keeping them
    never unfolds how distances are defined.
   */
  ghost predicate IsDistance(succ: Moves, seeds: set<Position>, Dist: (Position, nat) -> bool) {
    forall p, k {:trigger DistIs(succ, seeds, p, k)} :: Dist(p, k) <==> DistIs(succ, seeds, p, k)
  }

  /** Every move of `S`'s member `u` stays inside `S`. */
  ghost predicate Closed(succ: Moves, u: Position, S: set<Position>) {
    forall q :: q in succ(u) ==> q in S
  }

  /** A sequence of cells, each one move (under `rule`) after the one before. */
  ghost predicate IsWalk(succ: Moves, w: seq<Position>) {
    |w| >= 1 && forall i :: 0 <= i < |w| - 1 ==> w[i + 1] in succ(w[i])
  }

  ghost predicate WalkFrom(succ: Moves, seeds: set<Position>, w: seq<Position>, p: Position) {
    IsWalk(succ, w) && w[0] in seeds && w[|w| - 1] == p
  }

  // ---------------------------------------------------------------- layers

  lemma {:induction false} WithinMonotone(succ: Moves, seeds: set<Position>, j: nat, k: nat)
    requires j <= k
    ensures Within(succ, seeds, j) <= Within(succ, seeds, k)
  {
    if j < k {
      WithinMonotone(succ, seeds, j, k - 1);
    }
  }

  /** First touch: a cell's distance is at most any layer that contains it. */
  lemma DistLowerBound(succ: Moves, seeds: set<Position>, p: Position, d: nat, j: nat)
    requires DistIs(succ, seeds, p, d) && p in Within(succ, seeds, j)
    ensures d <= j
  {
    if j < d {
      WithinMonotone(succ, seeds, j, d - 1);
    }
  }

  lemma DistUnique(succ: Moves, seeds: set<Position>, p: Position, d: nat, e: nat)
    requires DistIs(succ, seeds, p, d) && DistIs(succ, seeds, p, e)
    ensures d == e
  {
    DistLowerBound(succ, seeds, p, d, e);
    DistLowerBound(succ, seeds, p, e, d);
  }

  /** Every seed is at distance zero. */
  lemma SeedDistance(succ: Moves, seeds: set<Position>, Dist: (Position, nat) -> bool, p: Position)
    requires IsDistance(succ, seeds, Dist) && p in seeds
    ensures Dist(p, 0)
  {
    assert DistIs(succ, seeds, p, 0);
  }

  /** A cell has one distance at most. */
  lemma DistanceUnique(succ: Moves, seeds: set<Position>, Dist: (Position, nat) -> bool, p: Position, a: nat, b: nat)
    requires IsDistance(succ, seeds, Dist) && Dist(p, a) && Dist(p, b)
    ensures a == b
  {
    DistUnique(succ, seeds, p, a, b);
  }

  /** A cell within `k` moves has a distance, and it is at most `k`. */
  lemma {:induction false} SomeDist(succ: Moves, seeds: set<Position>, p: Position, k: nat) returns (d: nat)
    requires p in Within(succ, seeds, k)
    ensures d <= k && DistIs(succ, seeds, p, d)
  {
    if k > 0 && p in Within(succ, seeds, k - 1) {
      d := SomeDist(succ, seeds, p, k - 1);
    } else {
      d := k;
    }
  }

  /** A cell at distance `k + 1` is one move from a cell at distance `k`. */
  lemma DistStep(succ: Moves, seeds: set<Position>, p: Position, k: nat) returns (u: Position)
    requires DistIs(succ, seeds, p, k + 1)
    ensures DistIs(succ, seeds, u, k) && p in succ(u)
  {
    u := ExpandOrigin(succ, Within(succ, seeds, k), p);
  }

  lemma SeedReached(succ: Moves, seeds: set<Position>, p: Position)
    requires p in seeds
    ensures Reached(succ, seeds, p)
  {
    assert p in Within(succ, seeds, 0);
  }

  /** One move past a reached cell is reached. */
  lemma ReachedStep(succ: Moves, seeds: set<Position>, u: Position, q: Position)
    requires Reached(succ, seeds, u) && q in succ(u)
    ensures Reached(succ, seeds, q)
  {
    var k: nat :| u in Within(succ, seeds, k);
    assert q in Within(succ, seeds, k + 1);
  }

  /** One move past a cell at distance `k` lies within distance `k + 1`. */
  lemma DistNext(succ: Moves, seeds: set<Position>, u: Position, k: nat, q: Position)
    requires DistIs(succ, seeds, u, k) && q in succ(u)
    ensures q in Within(succ, seeds, k + 1)
  {
  }

  /** Distances obey the triangle inequality along a move. */
  lemma DistTriangle(succ: Moves, seeds: set<Position>, u: Position, d: nat, q: Position, e: nat)
    requires DistIs(succ, seeds, u, d) && q in succ(u) && DistIs(succ, seeds, q, e)
    ensures e <= d + 1
  {
    DistNext(succ, seeds, u, d, q);
    DistLowerBound(succ, seeds, q, e, d + 1);
  }

  /**
    The covering argument of breadth-first search. `S` holds the seeds and every
    cell the search has seen; the cells of `C` have been expanded (each of their
    moves stays in `S`), and every seen cell not yet expanded is at distance `L`
    or more. Then every cell within distance `L` has been seen, and every cell
    within distance `L - 1` has been expanded.
   */
  lemma {:induction false} Covered(succ: Moves, seeds: set<Position>, S: set<Position>, C: set<Position>, L: nat)
    requires seeds <= S
    requires forall u :: u in C ==> Closed(succ, u, S)
    requires forall u :: u in S && u !in C && L > 0 ==> u !in Within(succ, seeds, L - 1)
    ensures Within(succ, seeds, L) <= S
    ensures L > 0 ==> Within(succ, seeds, L - 1) <= C
  {
    if L > 0 {
      forall u | u in S && u !in C && L - 1 > 0
        ensures u !in Within(succ, seeds, L - 2)
      {
        WithinMonotone(succ, seeds, L - 2, L - 1);
      }
      Covered(succ, seeds, S, C, L - 1);
      var W := Within(succ, seeds, L - 1);
      assert W <= C;
      forall q | q in Within(succ, seeds, L)
        ensures q in S
      {
        if q !in W {
          var u := ExpandOrigin(succ, W, q);
          assert Closed(succ, u, S);
        }
      }
    }
  }

  /** A set that holds the seeds and is closed under moves holds every reached cell. */
  lemma ClosedContainsReached(succ: Moves, seeds: set<Position>, S: set<Position>, p: Position)
    requires seeds <= S
    requires forall u :: u in S ==> Closed(succ, u, S)
    requires Reached(succ, seeds, p)
    ensures p in S
  {
    var k: nat :| p in Within(succ, seeds, k);
    Covered(succ, seeds, S, S, k);
  }

  // ---------------------------------------------------------------- walks

  lemma {:induction false} WalkWithin(succ: Moves, seeds: set<Position>, w: seq<Position>)
    requires IsWalk(succ, w) && w[0] in seeds
    ensures w[|w| - 1] in Within(succ, seeds, |w| - 1)
  {
    if |w| > 1 {
      var v := w[..|w| - 1];
      assert IsWalk(succ, v) by {
        forall i | 0 <= i < |v| - 1 ensures v[i + 1] in succ(v[i]) {
          assert v[i] == w[i] && v[i + 1] == w[i + 1];
        }
      }
      WalkWithin(succ, seeds, v);
      assert w[|w| - 1] in succ(v[|v| - 1]);
    }
  }

  lemma {:induction false} WithinWalk(succ: Moves, seeds: set<Position>, p: Position, k: nat)
    returns (w: seq<Position>)
    requires p in Within(succ, seeds, k)
    ensures WalkFrom(succ, seeds, w, p) && |w| <= k + 1
    decreases k
  {
    if k == 0 {
      w := [p];
    } else if p in Within(succ, seeds, k - 1) {
      w := WithinWalk(succ, seeds, p, k - 1);
    } else {
      var u := ExpandOrigin(succ, Within(succ, seeds, k - 1), p);
      var v := WithinWalk(succ, seeds, u, k - 1);
      w := v + [p];
      forall i | 0 <= i < |w| - 1 ensures w[i + 1] in succ(w[i]) {
        if i < |v| - 1 {
          assert w[i] == v[i] && w[i + 1] == v[i + 1];
        }
      }
    }
  }

  /** A cell is reached exactly when some walk leads to it from a seed. */
  lemma ReachedIffWalk(succ: Moves, seeds: set<Position>, p: Position)
    ensures Reached(succ, seeds, p) <==> exists w :: WalkFrom(succ, seeds, w, p)
  {
    if Reached(succ, seeds, p) {
      var k: nat :| p in Within(succ, seeds, k);
      var w := WithinWalk(succ, seeds, p, k);
    }
    if w :| WalkFrom(succ, seeds, w, p) {
      WalkWithin(succ, seeds, w);
    }
  }

  /** Distance `k` means: some walk from a seed has `k` moves and none has fewer. */
  lemma DistIsShortest(succ: Moves, seeds: set<Position>, p: Position, k: nat)
    requires DistIs(succ, seeds, p, k)
    ensures exists w :: WalkFrom(succ, seeds, w, p) && |w| == k + 1
    ensures forall w :: WalkFrom(succ, seeds, w, p) ==> |w| >= k + 1
  {
    var w := WithinWalk(succ, seeds, p, k);
    WalkWithin(succ, seeds, w);
    DistLowerBound(succ, seeds, p, k, |w| - 1);
    forall v | WalkFrom(succ, seeds, v, p) ensures |v| >= k + 1 {
      WalkWithin(succ, seeds, v);
      DistLowerBound(succ, seeds, p, k, |v| - 1);
    }
  }

  // ---------------------------------------------------------------- parity

  function Parity(p: Position): (r: int)
    ensures r == 0 || r == 1
  {
    (p.x + p.y) % 2
  }

  lemma AdjacentFlipsParity(p: Position, q: Position)
    requires Adjacent(p, q)
    ensures Parity(p) != Parity(q)
  {
  }

  /** The parity a cell at distance `k` from `s` must have. */
  function ParityAt(s: Position, k: nat): int {
    if k % 2 == 0 then Parity(s) else 1 - Parity(s)
  }

  /** One move under cardinal moves takes a cell of parity `ParityAt(s, k)` to parity `ParityAt(s, k + 1)`. */
  lemma ParityStep(succ: Moves, s: Position, u: Position, p: Position, k: nat)
    requires Cardinal(succ) && p in succ(u) && Parity(u) == ParityAt(s, k)
    ensures Parity(p) == ParityAt(s, k + 1)
  {
    CardinalMove(succ, u, p);
    AdjacentFlipsParity(u, p);
  }

  /**
    With cardinal moves and a single source, a cell's distance has the parity of
    its coordinate sum relative to the source: every move changes `x + y` by one.
   */
  lemma {:induction false} DistParity(succ: Moves, s: Position, p: Position, k: nat)
    requires Cardinal(succ) && DistIs(succ, {s}, p, k)
    ensures Parity(p) == ParityAt(s, k)
    decreases k
  {
    if k > 0 {
      var u := DistStep(succ, {s}, p, k - 1);
      DistParity(succ, s, u, k - 1);
      ParityStep(succ, s, u, p, k - 1);
    }
  }

  /**
    Cardinal adjacency is bipartite: two adjacent cells are never at the same
    distance from a single source.
   */
  lemma SameDistanceNotAdjacent(succ: Moves, s: Position, u: Position, v: Position, k: nat)
    requires Cardinal(succ) && DistIs(succ, {s}, u, k) && DistIs(succ, {s}, v, k)
    ensures !Adjacent(u, v)
  {
    DistParity(succ, s, u, k);
    DistParity(succ, s, v, k);
    if Adjacent(u, v) {
      AdjacentFlipsParity(u, v);
    }
  }

  // ---------------------------------------------------------------- unreachable cells and congruence

  lemma {:induction false} NeverEnteredNotWithin(succ: Moves, seeds: set<Position>, p: Position, k: nat)
    requires p !in seeds && forall c :: p !in succ(c)
    ensures p !in Within(succ, seeds, k)
  {
    if k > 0 {
      NeverEnteredNotWithin(succ, seeds, p, k - 1);
    }
  }

  /** A cell that is no seed and no move ever enters is never reached. */
  lemma NeverEnteredNotReached(succ: Moves, seeds: set<Position>, p: Position)
    requires p !in seeds && forall c :: p !in succ(c)
    ensures !Reached(succ, seeds, p)
  {
    forall k: nat ensures p !in Within(succ, seeds, k) {
      NeverEnteredNotWithin(succ, seeds, p, k);
    }
  }

  /** Two move functions that agree everywhere expand a set alike. */
  lemma ExpandCongruent(succ: Moves, succ': Moves, S: set<Position>)
    requires forall c :: succ(c) == succ'(c)
    ensures Expand(succ, S) == Expand(succ', S)
  {
    forall q | q in Expand(succ, S) && q !in S ensures q in Expand(succ', S) {
      var u := ExpandOrigin(succ, S, q);
      assert q in succ'(u);
    }
    forall q | q in Expand(succ', S) && q !in S ensures q in Expand(succ, S) {
      var u := ExpandOrigin(succ', S, q);
      assert q in succ(u);
    }
  }

  /** Two move functions that agree everywhere have the same layers. */
  lemma {:induction false} WithinCongruent(succ: Moves, succ': Moves, seeds: set<Position>, k: nat)
    requires forall c :: succ(c) == succ'(c)
    ensures Within(succ, seeds, k) == Within(succ', seeds, k)
  {
    if k > 0 {
      WithinCongruent(succ, succ', seeds, k - 1);
      ExpandCongruent(succ, succ', Within(succ, seeds, k - 1));
    }
  }

  /** Two move functions that agree everywhere give every cell the same distance. */
  lemma DistCongruent(succ: Moves, succ': Moves, seeds: set<Position>, p: Position, k: nat)
    requires forall c :: succ(c) == succ'(c)
    ensures DistIs(succ, seeds, p, k) <==> DistIs(succ', seeds, p, k)
  {
    WithinCongruent(succ, succ', seeds, k);
    if k > 0 {
      WithinCongruent(succ, succ', seeds, k - 1);
    }
    DistOfLayers(succ, succ', seeds, p, k);
  }

  /** Distance depends on the layers only. */
  lemma DistOfLayers(succ: Moves, succ': Moves, seeds: set<Position>, p: Position, k: nat)
    requires Within(succ, seeds, k) == Within(succ', seeds, k)
    requires k > 0 ==> Within(succ, seeds, k - 1) == Within(succ', seeds, k - 1)
    ensures DistIs(succ, seeds, p, k) <==> DistIs(succ', seeds, p, k)
  {
  }

  // ---------------------------------------------------------------- what a probe queues, in order

  /** The cells of a sequence as a set: the seeds of a pass, or the cells a probe marks seen. */
  function SeedSet(seeds: seq<Position>): set<Position> {
    set p | p in seeds
  }

  /**
    The cells of `s` a search queues when it marks each one seen as it goes:
    every cell not in `seen`, at its first occurrence, in the order of `s`.
   */
  function Fresh(s: seq<Position>, seen: set<Position>): (r: seq<Position>)
    ensures |r| <= |s|
  {
    if s == [] then []
    else
      var init, q := s[..|s| - 1], s[|s| - 1];
      assert s == init + [q];
      Fresh(init, seen) + (if q in seen || q in init then [] else [q])
  }

  /** Exactly the cells of `s` not in `seen` are queued. */
  lemma {:induction false} FreshMembers(s: seq<Position>, seen: set<Position>)
    ensures forall q :: q in Fresh(s, seen) <==> q in s && q !in seen
    decreases |s|
  {
    if s != [] {
      FreshMembers(s[..|s| - 1], seen);
      assert s == s[..|s| - 1] + [s[|s| - 1]];
    }
  }

  /** Each queued cell is one newly seen cell. */
  lemma {:induction false} FreshCard(s: seq<Position>, seen: set<Position>)
    ensures |seen + SeedSet(s)| == |seen| + |Fresh(s, seen)|
    decreases |s|
  {
    if s != [] {
      var init, q := s[..|s| - 1], s[|s| - 1];
      FreshCard(init, seen);
      assert s == init + [q];
      assert SeedSet(s) == SeedSet(init) + {q};
      assert seen + SeedSet(s) == (seen + SeedSet(init)) + {q};
      CardAddOne(seen + SeedSet(init), q);
    }
  }

  /** No cell is queued twice. */
  lemma {:induction false} FreshDistinct(s: seq<Position>, seen: set<Position>)
    ensures forall i, j :: 0 <= i < j < |Fresh(s, seen)| ==> Fresh(s, seen)[i] != Fresh(s, seen)[j]
    decreases |s|
  {
    if s != [] {
      FreshDistinct(s[..|s| - 1], seen);
      FreshMembers(s[..|s| - 1], seen);
    }
  }

  /** The cells of `s` outside `expanded`, in the order of `s`, repeats included. */
  function Unexpanded(s: seq<Position>, expanded: set<Position>): (r: seq<Position>)
    ensures |r| <= |s|
  {
    if s == [] then []
    else
      var init, q := s[..|s| - 1], s[|s| - 1];
      assert s == init + [q];
      Unexpanded(init, expanded) + (if q in expanded then [] else [q])
  }

  /** Exactly the cells of `s` outside `expanded` are kept. */
  lemma {:induction false} UnexpandedMembers(s: seq<Position>, expanded: set<Position>)
    ensures forall q :: q in Unexpanded(s, expanded) <==> q in s && q !in expanded
    decreases |s|
  {
    if s != [] {
      UnexpandedMembers(s[..|s| - 1], expanded);
      assert s == s[..|s| - 1] + [s[|s| - 1]];
    }
  }

  /** The part of `s` before the first occurrence of `x`; all of `s` if `x` does not occur. */
  function Before(s: seq<Position>, x: Position): (r: seq<Position>)
    ensures |r| <= |s| && r == s[..|r|] && x !in r
    ensures x in s <==> |r| < |s|
    ensures |r| < |s| ==> s[|r|] == x
  {
    if s == [] then []
    else if s[0] == x then []
    else [s[0]] + Before(s[1..], x)
  }

  /** One more cell of a probe: it is queued exactly when it has not been seen. */
  lemma FreshStep(s: seq<Position>, i: nat, seen: set<Position>, seen': set<Position>)
    requires i < |s| && seen' == seen + SeedSet(s[..i])
    ensures Fresh(s[..i + 1], seen) == Fresh(s[..i], seen) + (if s[i] in seen' then [] else [s[i]])
    ensures SeedSet(s[..i + 1]) == SeedSet(s[..i]) + {s[i]}
    ensures s[i] in seen' <==> s[i] in seen || s[i] in s[..i]
  {
    assert s[..i + 1][..i] == s[..i];
    assert s[..i + 1] == s[..i] + [s[i]];
  }

  /** A frontier extended by a probe keeps its prefix, and gains exactly the neighbours not seen before. */
  lemma FreshAppended(frontier: seq<Position>, s: seq<Position>, seen: set<Position>, frontier': seq<Position>)
    requires frontier' == frontier + Fresh(s, seen)
    ensures |frontier'| >= |frontier| && frontier'[..|frontier|] == frontier
    ensures forall i :: |frontier| <= i < |frontier'| ==> frontier'[i] in s && frontier'[i] !in seen
    ensures forall q :: q in s && q !in seen ==> q in frontier'
  {
    FreshMembers(s, seen);
    assert forall i :: |frontier| <= i < |frontier'| ==> frontier'[i] == Fresh(s, seen)[i - |frontier|];
  }

  /** One more cell of a sequence adds it to the cells of the prefix. */
  lemma SeedSetStep(s: seq<Position>, i: nat)
    requires i < |s|
    ensures SeedSet(s[..i + 1]) == SeedSet(s[..i]) + {s[i]}
  {
    assert s[..i + 1] == s[..i] + [s[i]];
  }

  /** The part before `x` ends where `x` first occurs. */
  lemma BeforeAt(s: seq<Position>, x: Position, i: nat)
    requires i < |s| && s[i] == x && x !in s[..i]
    ensures Before(s, x) == s[..i]
    ensures Before(s, x) + [x] == s[..i + 1]
  {
    var r := Before(s, x);
    assert |r| == i;
  }

  /** One more cell of a probe: it is kept exactly when it is outside `expanded`. */
  lemma UnexpandedStep(s: seq<Position>, i: nat, expanded: set<Position>)
    requires i < |s|
    ensures Unexpanded(s[..i + 1], expanded) == Unexpanded(s[..i], expanded) + (if s[i] in expanded then [] else [s[i]])
  {
    assert s[..i + 1][..i] == s[..i];
  }

  // ---------------------------------------------------------------- what a search has left to see

  lemma SubsetCard<T>(A: set<T>, B: set<T>)
    requires A <= B
    ensures |A| <= |B|
  {
    if A != {} {
      var x :| x in A;
      SubsetCard(A - {x}, B - {x});
    }
  }

  lemma CardAddOne<T>(S: set<T>, x: T)
    ensures |S + {x}| == if x in S then |S| else |S| + 1
  {
    if x in S {
      assert S + {x} == S;
    } else {
      assert (S + {x}) - {x} == S;
    }
  }

  /** Growing the seen set never leaves more to see, and seeing a new cell of `U` leaves less. */
  lemma FewerLeft<T>(U: set<T>, A: set<T>, B: set<T>)
    requires A <= B
    ensures |U - B| <= |U - A|
    ensures (exists x :: x in U && x in B && x !in A) ==> |U - B| < |U - A|
  {
    SubsetCard(U - B, U - A);
    if x :| x in U && x in B && x !in A {
      SubsetCard(U - B, U - A - {x});
    }
  }
}
