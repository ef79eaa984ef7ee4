/**
 * Neighbour queries on block coordinates. Each query returns a fixed list
 * of coordinates in a fixed order, is refused for a coordinate that is 0 on
 * either axis, and does not check the result against the size of the grid.
 */
module Neighbours {
  import opened Blocks

  /** The four directions of `get_neighbours_direction`. */
  datatype Direction = Up | Down | Left | Right

  function Dist(a: nat, b: nat): nat
  {
    if a <= b then b - a else a - b
  }

  /** `p` is one of the eight blocks around `(x, y)`: at most one step on each axis, and not `(x, y)`. */
  predicate Around(p: Coord, x: nat, y: nat)
  {
    Dist(p.0, x) <= 1 && Dist(p.1, y) <= 1 && p != (x, y)
  }

  /** `p` shares a side with `(x, y)`. */
  predicate SideBySide(p: Coord, x: nat, y: nat)
  {
    Dist(p.0, x) + Dist(p.1, y) == 1
  }

  /** `p` shares only a corner with `(x, y)`. */
  predicate CornerToCorner(p: Coord, x: nat, y: nat)
  {
    Dist(p.0, x) == 1 && Dist(p.1, y) == 1
  }

  /** `p` is one of the three blocks on the side of `(x, y)` that `d` points to. */
  predicate Toward(p: Coord, x: nat, y: nat, d: Direction)
  {
    match d
    case Up => p.1 == y + 1 && Dist(p.0, x) <= 1
    case Down => p.1 + 1 == y && Dist(p.0, x) <= 1
    case Right => p.0 == x + 1 && Dist(p.1, y) <= 1
    case Left => p.0 + 1 == x && Dist(p.1, y) <= 1
  }

  /** No coordinate appears twice. */
  predicate Distinct(ns: seq<Coord>)
  {
    forall i, j :: 0 <= i < j < |ns| ==> ns[i] != ns[j]
  }

  /** `get_neighbours_adjascent`: the four blocks sharing a side, left, right, up, down. */
  function AdjacentNeighbours(x: nat, y: nat): (ns: seq<Coord>)
    requires x > 0 && y > 0
    ensures |ns| == 4 && Distinct(ns)
    ensures forall p :: p in ns <==> SideBySide(p, x, y)
  {
    [(x - 1, y), (x + 1, y), (x, y + 1), (x, y - 1)]
  }

  /** `get_neighbours_diagonal`: the four blocks sharing only a corner. */
  function DiagonalNeighbours(x: nat, y: nat): (ns: seq<Coord>)
    requires x > 0 && y > 0
    ensures |ns| == 4 && Distinct(ns)
    ensures forall p :: p in ns <==> CornerToCorner(p, x, y)
  {
    [(x - 1, y + 1), (x - 1, y - 1), (x + 1, y + 1), (x + 1, y - 1)]
  }

  /** `get_neighbours_all`: all eight surrounding blocks, the side neighbours first. */
  function AllNeighbours(x: nat, y: nat): (ns: seq<Coord>)
    requires x > 0 && y > 0
    ensures |ns| == 8 && Distinct(ns)
    ensures forall p :: p in ns <==> Around(p, x, y)
  {
    [(x - 1, y), (x + 1, y), (x, y + 1), (x, y - 1),
     (x - 1, y + 1), (x - 1, y - 1), (x + 1, y + 1), (x + 1, y - 1)]
  }

  /** `get_neighbours_direction`: the three blocks on one side of `(x, y)`. */
  function DirectionNeighbours(x: nat, y: nat, d: Direction): (ns: seq<Coord>)
    requires x > 0 && y > 0
    ensures |ns| == 3 && Distinct(ns)
    ensures forall p :: p in ns <==> Toward(p, x, y, d)
  {
    match d
    case Up => [(x - 1, y + 1), (x, y + 1), (x + 1, y + 1)]
    case Down => [(x - 1, y - 1), (x, y - 1), (x + 1, y - 1)]
    case Right => [(x + 1, y + 1), (x + 1, y), (x + 1, y - 1)]
    case Left => [(x - 1, y + 1), (x - 1, y), (x - 1, y - 1)]
  }

  /** All eight neighbours are, in order, the side neighbours followed by the corner neighbours. */
  lemma AllIsAdjacentThenDiagonal(x: nat, y: nat)
    requires x > 0 && y > 0
    ensures AllNeighbours(x, y) == AdjacentNeighbours(x, y) + DiagonalNeighbours(x, y)
  {
  }

  /** Every block a directional query returns is one of the eight neighbours. */
  lemma DirectionWithinAll(x: nat, y: nat, d: Direction)
    requires x > 0 && y > 0
    ensures forall p :: p in DirectionNeighbours(x, y, d) ==> p in AllNeighbours(x, y)
  {
  }

  /** The worked examples around block `(4, 4)`, in the order the queries return them. */
  lemma ExamplesAtFourFour()
    ensures AllNeighbours(4, 4) == [(3, 4), (5, 4), (4, 5), (4, 3), (3, 5), (3, 3), (5, 5), (5, 3)]
    ensures DirectionNeighbours(4, 4, Right) == [(5, 5), (5, 4), (5, 3)]
  {
  }
}
