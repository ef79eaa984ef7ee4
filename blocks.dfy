/**
 * The block grid of a PixelImage: the square image of side `n * r` is cut
 * into `n * n` blocks of `r * r` raw pixels. Block `(c, row)` covers the raw
 * pixels `[c*r, c*r + r) x [row*r, row*r + r)`, listed column by column.
 */
module Blocks {
  import opened Sizing

  /** A block or raw pixel coordinate `(x, y)`: column first, then row. */
  type Coord = (nat, nat)

  /** The `k`-th raw pixel of block `(c, row)`: column `k / r`, row `k % r` inside the block. */
  function Cell(c: nat, row: nat, r: nat, k: nat): Coord
    requires r >= 1
  {
    (c * r + k / r, row * r + k % r)
  }

  /** The raw pixels of block `(c, row)` in the order `PixelImage::new` pushes them. */
  function BlockPixels(c: nat, row: nat, r: nat): seq<Coord>
    requires r >= 1
  {
    seq(r * r, k requires 0 <= k < r * r => Cell(c, row, r, k))
  }

  /** The block coordinates of an `n`-by-`n` grid. */
  function Keys(n: nat): set<Coord>
  {
    set c: nat, row: nat | c < n && row < n :: (c, row)
  }

  /** The map from block coordinate to raw pixels that `PixelImage::new` builds. */
  function Grid(n: nat, r: nat): map<Coord, seq<Coord>>
    requires r >= 1
  {
    map p | p in Keys(n) :: BlockPixels(p.0, p.1, r)
  }

  /** The set of elements of a pixel list. */
  function Elems(s: seq<Coord>): set<Coord>
  {
    set p | p in s
  }

  /** The entry at index `i*r + j` of a block is the raw pixel `(c*r + i, row*r + j)`. */
  lemma BlockEntry(c: nat, row: nat, r: nat, i: nat, j: nat)
    requires r >= 1 && i < r && j < r
    ensures |BlockPixels(c, row, r)| == r * r
    ensures i * r + j < r * r
    ensures BlockPixels(c, row, r)[i * r + j] == (c * r + i, row * r + j)
  {
    IndexBound(i, j, r);
    DivModOf(i, j, r);
  }

  /** The `k`-th pixel of a block divides back to the block's coordinate. */
  lemma CellDivides(c: nat, row: nat, r: nat, k: nat)
    requires r >= 1 && k < r * r
    ensures Cell(c, row, r, k).0 / r == c && Cell(c, row, r, k).1 / r == row
  {
    IndexSplit(k, r);
    DivModOf(c, k / r, r);
    DivModOf(row, k % r, r);
  }

  /** Every pixel of block `(c, row)` divides back to `(c, row)`. */
  lemma InBlockOnly(c: nat, row: nat, r: nat, q: Coord)
    requires r >= 1 && q in BlockPixels(c, row, r)
    ensures q.0 / r == c && q.1 / r == row
  {
    var b := BlockPixels(c, row, r);
    var k :| 0 <= k < |b| && b[k] == q;
    CellDivides(c, row, r, k);
  }

  /** Every raw pixel that divides to `(c, row)` is listed in block `(c, row)`. */
  lemma InBlockAll(c: nat, row: nat, r: nat, q: Coord)
    requires r >= 1 && q.0 / r == c && q.1 / r == row
    ensures q in BlockPixels(c, row, r)
  {
    var i, j := q.0 % r, q.1 % r;
    assert q.0 == c * r + i && q.1 == row * r + j;
    BlockEntry(c, row, r, i, j);
    assert BlockPixels(c, row, r)[i * r + j] == q;
  }

  /**
   * A raw pixel lies in block `(c, row)` exactly when its coordinates,
   * divided by the resolution, give `(c, row)`.
   */
  lemma InBlockIff(c: nat, row: nat, r: nat, q: Coord)
    requires r >= 1
    ensures q in BlockPixels(c, row, r) <==> q.0 / r == c && q.1 / r == row
  {
    if q in BlockPixels(c, row, r) {
      InBlockOnly(c, row, r, q);
    }
    if q.0 / r == c && q.1 / r == row {
      InBlockAll(c, row, r, q);
    }
  }

  /** A block's raw pixels lie exactly on its `r`-by-`r` square. */
  lemma InBlockSquare(c: nat, row: nat, r: nat, q: Coord)
    requires r >= 1
    ensures q in BlockPixels(c, row, r) <==>
              c * r <= q.0 < c * r + r && row * r <= q.1 < row * r + r
  {
    InBlockIff(c, row, r, q);
    DivBounds(q.0, c, r);
    DivBounds(q.1, row, r);
  }

  /** `a / r == c` exactly when `c*r <= a < c*r + r`. */
  lemma DivBounds(a: nat, c: nat, r: nat)
    requires r >= 1
    ensures a / r == c <==> c * r <= a < c * r + r
  {
    if c * r <= a < c * r + r {
      DivModOf(c, a - c * r, r);
    }
    if a / r == c {
      assert a == c * r + a % r;
    }
  }

  /** No raw pixel appears twice in a block. */
  lemma BlockDistinct(c: nat, row: nat, r: nat)
    requires r >= 1
    ensures forall k1, k2 :: 0 <= k1 < k2 < r * r ==>
              BlockPixels(c, row, r)[k1] != BlockPixels(c, row, r)[k2]
  {
    forall k1, k2 | 0 <= k1 < k2 < r * r
      ensures BlockPixels(c, row, r)[k1] != BlockPixels(c, row, r)[k2]
    {
      assert k1 == (k1 / r) * r + k1 % r;
      assert k2 == (k2 / r) * r + k2 % r;
    }
  }

  /** Every raw pixel of a grid block lies on the `n*r`-by-`n*r` image. */
  lemma BlockInImage(n: nat, r: nat, p: Coord, q: Coord)
    requires r >= 1 && p in Keys(n)
    requires q in BlockPixels(p.0, p.1, r)
    ensures q.0 < n * r && q.1 < n * r
  {
    InBlockSquare(p.0, p.1, r, q);
    MulLe(p.0 + 1, n, r);
    MulLe(p.1 + 1, n, r);
    MulSucc(p.0, r);
    MulSucc(p.1, r);
  }

  /** The whole block of a grid key fits on the `n*r`-by-`n*r` image. */
  lemma GridBlockInImage(n: nat, r: nat, p: Coord)
    requires r >= 1 && p in Grid(n, r)
    ensures forall q :: q in Grid(n, r)[p] ==> q.0 < n * r && q.1 < n * r
  {
    forall q | q in Grid(n, r)[p]
      ensures q.0 < n * r && q.1 < n * r
    {
      BlockInImage(n, r, p, q);
    }
  }

  /** Blocks of distinct grid coordinates share no raw pixel. */
  lemma BlocksDisjoint(r: nat, p1: Coord, p2: Coord)
    requires r >= 1 && p1 != p2
    ensures Elems(BlockPixels(p1.0, p1.1, r)) !! Elems(BlockPixels(p2.0, p2.1, r))
  {
    forall q | q in Elems(BlockPixels(p1.0, p1.1, r))
      ensures q !in Elems(BlockPixels(p2.0, p2.1, r))
    {
      InBlockIff(p1.0, p1.1, r, q);
      InBlockIff(p2.0, p2.1, r, q);
    }
  }

  /**
   * The grid partitions the image: every raw pixel of the `n*r`-by-`n*r`
   * image lies in exactly one block, the one whose key is its coordinates
   * divided by `r`, and no block reaches outside the image.
   */
  lemma GridPartition(n: nat, r: nat, q: Coord)
    requires r >= 1
    ensures q.0 < n * r && q.1 < n * r <==>
              exists p :: p in Grid(n, r) && q in Grid(n, r)[p]
    ensures forall p :: p in Grid(n, r) && q in Grid(n, r)[p] ==>
              p == (q.0 / r, q.1 / r)
  {
    forall p | p in Grid(n, r) && q in Grid(n, r)[p]
      ensures p == (q.0 / r, q.1 / r) && q.0 < n * r && q.1 < n * r
    {
      InBlockIff(p.0, p.1, r, q);
      BlockInImage(n, r, p, q);
    }
    if q.0 < n * r && q.1 < n * r {
      var p: Coord := (q.0 / r, q.1 / r);
      DivBounds(q.0, q.0 / r, r);
      DivBounds(q.1, q.1 / r, r);
      MulLtCancel(p.0, n, r);
      MulLtCancel(p.1, n, r);
      assert p in Keys(n);
      InBlockIff(p.0, p.1, r, q);
      assert q in Grid(n, r)[p];
    }
  }

  /** The block keys of the first `m` columns of an `n`-row grid. */
  function KeysUpTo(m: nat, n: nat): set<Coord>
  {
    set c: nat, row: nat | c < m && row < n :: (c, row)
  }

  /** The keys of column `c`. */
  function Column(c: nat, n: nat): set<Coord>
  {
    set row: nat | row < n :: (c, row)
  }

  lemma {:induction false} ColumnSize(c: nat, n: nat)
    ensures |Column(c, n)| == n
  {
    if n > 0 {
      assert Column(c, n) == Column(c, n - 1) + {(c, n - 1)};
      ColumnSize(c, n - 1);
    } else {
      assert Column(c, n) == {};
    }
  }

  /** The first `m + 1` columns are the first `m` columns plus column `m`, which is new. */
  lemma KeysUpToSplit(m: nat, n: nat)
    ensures KeysUpTo(m + 1, n) == KeysUpTo(m, n) + Column(m, n)
    ensures KeysUpTo(m, n) !! Column(m, n)
  {
    forall p | p in KeysUpTo(m + 1, n)
      ensures p in KeysUpTo(m, n) + Column(m, n)
    {
      if p.0 < m {
        assert p in KeysUpTo(m, n);
      } else {
        assert p in Column(m, n);
      }
    }
  }

  lemma {:induction false} KeysUpToSize(m: nat, n: nat)
    ensures |KeysUpTo(m, n)| == m * n
  {
    if m > 0 {
      KeysUpToSplit(m - 1, n);
      KeysUpToSize(m - 1, n);
      ColumnSize(m - 1, n);
      MulSucc(m - 1, n);
    } else {
      assert KeysUpTo(m, n) == {};
    }
  }

  /** An `n`-by-`n` grid has `n * n` blocks of `r * r` raw pixels each. */
  lemma GridSize(n: nat, r: nat)
    requires r >= 1
    ensures |Grid(n, r).Keys| == n * n
    ensures forall p :: p in Grid(n, r) ==> |Grid(n, r)[p]| == r * r
  {
    assert Grid(n, r).Keys == KeysUpTo(n, n);
    KeysUpToSize(n, n);
  }

  /** Whether key `p` comes before `(cx, cy)` in the order `PixelImage::new` visits blocks (row by row). */
  predicate Visited(p: Coord, n: nat, cx: nat, cy: nat)
  {
    p.0 < n && (p.1 < cy || (p.1 == cy && p.0 < cx))
  }

  /**
   * The nested loops of `PixelImage::new` that build the grid: for every
   * row of blocks and every block in it, the raw pixels are pushed column
   * by column and the list is inserted under the block's coordinate.
   */
  method BuildGrid(pixelResolution: nat, imageSize: nat) returns (grid: map<Coord, seq<Coord>>)
    requires pixelResolution >= 1
    ensures grid == Grid(imageSize / pixelResolution, pixelResolution)
  {
    var r := pixelResolution;
    grid := map[];
    var rows := imageSize / r;
    var pixelsPerRow := imageSize / r;
    var offsetY: nat := 0;
    var currentY: nat := 0;
    for row := 0 to rows
      invariant currentY == row && offsetY == currentY * r
      invariant forall p :: p in grid <==> Visited(p, pixelsPerRow, 0, currentY)
      invariant forall p :: p in grid ==> grid[p] == BlockPixels(p.0, p.1, r)
    {
      var offsetX: nat := 0;
      var currentX: nat := 0;
      for column := 0 to pixelsPerRow
        invariant currentX == column && offsetX == currentX * r
        invariant forall p :: p in grid <==> Visited(p, pixelsPerRow, currentX, currentY)
        invariant forall p :: p in grid ==> grid[p] == BlockPixels(p.0, p.1, r)
      {
        MultipleMod(currentX, r);
        MultipleMod(currentY, r);
        DivModOf(currentX, 0, r);
        DivModOf(currentY, 0, r);
        var pixel := BuildBlock(r, offsetX, offsetY);
        grid := grid[(currentX, currentY) := pixel];
        currentX := currentX + 1;
        offsetX := offsetX + r;
      }
      currentY := currentY + 1;
      offsetY := offsetY + r;
    }
    forall p | p in Keys(rows)
      ensures p in grid
    {
      assert Visited(p, pixelsPerRow, 0, currentY);
    }
    assert grid.Keys == Grid(rows, r).Keys;
  }

  /**
   * The two innermost loops of `PixelImage::new`: the raw pixels of the
   * block whose corner is `(offsetX, offsetY)`, column by column.
   */
  method BuildBlock(r: nat, offsetX: nat, offsetY: nat) returns (pixel: seq<Coord>)
    requires r >= 1 && offsetX % r == 0 && offsetY % r == 0
    ensures pixel == BlockPixels(offsetX / r, offsetY / r, r)
  {
    ghost var c, row := offsetX / r, offsetY / r;
    assert offsetX == c * r && offsetY == row * r;
    pixel := [];
    for x := 0 to r
      invariant |pixel| == x * r
      invariant forall k :: 0 <= k < |pixel| ==> pixel[k] == Cell(c, row, r, k)
    {
      for y := 0 to r
        invariant |pixel| == x * r + y
        invariant forall k :: 0 <= k < |pixel| ==> pixel[k] == Cell(c, row, r, k)
      {
        DivModOf(x, y, r);
        assert Cell(c, row, r, x * r + y) == (x + offsetX, y + offsetY);
        pixel := pixel + [(x + offsetX, y + offsetY)];
      }
      MulSucc(x, r);
    }
  }
}
