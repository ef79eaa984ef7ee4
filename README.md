# PixelImage: blocks of pixels over a square raster

This project models the `PixelImage` type of the Pixel-Art crate (`src/lib.rs`).
A `PixelImage` cuts a square RGBA raster into a grid of equal square blocks,
the "logical pixels" of pixel art. It has three pieces of logic:

- **Size correction and grid construction** (`PixelImage::new`). The requested
  side length is raised one step at a time until its area is a multiple of the
  block area. Then a map is built from every block coordinate `(column, row)`
  to the raw pixels that block covers, listed column by column.
- **Neighbour queries** (`get_neighbours_all`, `get_neighbours_adjascent`,
  `get_neighbours_diagonal`, `get_neighbours_direction`). Each returns a fixed
  list of block coordinates in a fixed order. Each refuses a coordinate that
  is 0 on either axis. None checks its result against the grid.
- **Block fill** (`draw_pixel`). It paints every raw pixel of one block with
  an opaque colour.

Modules:

- `Sizing` (`sizing.dfy`): the correction loop `CorrectSize` and its closed
  form `RoundUp`. It also holds the number-theory fact behind them: `r^2`
  divides `s^2` only when `r` divides `s` (`SquareRatio`).
- `Blocks` (`blocks.dfy`): the block geometry (`BlockPixels`, `Keys`, `Grid`).
  It holds the grid-building loops `BuildGrid` and `BuildBlock`, and the
  partition facts: block contents, disjointness, cover, counts.
- `Neighbours` (`neighbours.dfy`): the four queries as pure functions. Each
  comes with an independent description of its result set.
- `Canvas` (`canvas.dfy`): the class `PixelImage`. Its fields are the raster
  buffer `img`, a two-dimensional array, and the block map `pixels`. The
  module also defines the value-level `Fill` that specifies `DrawPixel`, and
  the scenario of the crate's own test.

## Behaviour kept from the code

- A requested size of 0 is accepted. The correction loop does not run, and
  the grid is empty.
- The correction loop stops at the request rounded up to a multiple of the
  resolution.
- Each panic condition of the code is a precondition of the model:
  resolution 0, a neighbour query at coordinate 0, and `draw_pixel` on a
  coordinate that is not a grid key.

## Model

| member | source | states |
|---|---|---|
| `Sizing.CorrectSize` | src/lib.rs:20-27 | The loop terminates for resolution ≥ 1. It returns the least size at or above the request whose area is a multiple of the block area. That size is a multiple of the resolution, below request + resolution, and equal to `RoundUp`. |
| `Sizing.RoundUp` | src/lib.rs:24-27 | The closed form: a multiple of `r`, at least `n`, below `n + r`, and no multiple of `r` lies in between. |
| `Sizing.LeastCompatibleIsRoundUp` | src/lib.rs:24-27 | A size is the least one at or above `n` that passes the loop's test exactly when it equals `RoundUp(n, r)`. |
| `Sizing.CompatibleIffMultiple` | src/lib.rs:24 | The loop's test `s² % r² == 0` holds exactly when `r` divides `s`. |
| `Sizing.SquareRatio` | src/lib.rs:24 | `s² == k·r²` implies `r` divides `s`, proved by descent on `r`. |
| `Sizing.MultipleIsCompatible` | src/lib.rs:24 | Every multiple of the resolution passes the loop's test, which is why the loop stops. |
| `Sizing.ExampleKeeps800` | src/lib.rs:135 | `new(10, 800)` keeps side 800, which gives 80 blocks a side. |
| `Sizing.ExampleRaises805` | src/lib.rs:24-27 | A requested side of 805 with resolution 10 becomes 810. |
| `Blocks.BuildGrid` | src/lib.rs:29-50 | The nested loops produce exactly `Grid(size / res, res)`: block `(c, row)` maps to its pixel list for every `c, row < size / res`, and there are no other keys. |
| `Blocks.BuildBlock` | src/lib.rs:38-43 | The two inner loops push exactly the pixel list of the block whose corner is `(offset_x, offset_y)`. |
| `Blocks.BlockEntry` | src/lib.rs:39-43 | A block list has `r²` entries. The entry at index `i·r + j` is `(c·r + i, row·r + j)`. |
| `Blocks.InBlockIff` | src/lib.rs:39-46 | A raw pixel is in block `(c, row)` exactly when its coordinates divided by `r` are `(c, row)`. |
| `Blocks.InBlockSquare` | src/lib.rs:39-43 | A block covers exactly the square `[c·r, c·r + r) × [row·r, row·r + r)`. |
| `Blocks.BlockDistinct` | src/lib.rs:38-43 | No raw pixel appears twice in a block's list. |
| `Blocks.BlockInImage` | src/lib.rs:30-46 | Every raw pixel of a grid block lies in `[0, s) × [0, s)`. |
| `Blocks.BlocksDisjoint` | src/lib.rs:34-50 | The blocks of two distinct coordinates share no raw pixel. |
| `Blocks.GridPartition` | src/lib.rs:30-50 | A raw pixel lies in some block exactly when it is inside the image. The only block holding it has key `(x / r, y / r)`. |
| `Blocks.GridSize` | src/lib.rs:30-44 | The grid has `(s / r)²` keys, and every block list has `r²` entries. |
| `Neighbours.AdjacentNeighbours` | src/lib.rs:73-81 | Requires `x > 0 && y > 0`. Returns 4 distinct coordinates, and they are exactly the blocks sharing a side with `(x, y)`. |
| `Neighbours.DiagonalNeighbours` | src/lib.rs:83-91 | Requires `x > 0 && y > 0`. Returns 4 distinct coordinates, and they are exactly the blocks one step away on both axes. |
| `Neighbours.AllNeighbours` | src/lib.rs:63-71 | Requires `x > 0 && y > 0`. Returns 8 distinct coordinates, and they are exactly the blocks at most one step away on each axis, other than `(x, y)`. |
| `Neighbours.DirectionNeighbours` | src/lib.rs:93-113 | Requires `x > 0 && y > 0`. Returns 3 distinct coordinates, and they are exactly the blocks in the row above (Up), the row below (Down), the next column (Right) or the previous column (Left), within one step on the other axis. |
| `Neighbours.AllIsAdjacentThenDiagonal` | src/lib.rs:63-91 | The eight-neighbour list is the side list followed by the corner list, in that order. |
| `Neighbours.DirectionWithinAll` | src/lib.rs:93-113 | Every coordinate a directional query returns is also among the eight neighbours. |
| `Neighbours.ExamplesAtFourFour` | src/lib.rs:141 | The exact ordered results at `(4, 4)` for all eight neighbours and for `Right`. |
| `Canvas.FillPointwise` | src/lib.rs:117-120 | A raster with the same shape as another, holding the colour on the block and the old value everywhere else, is the fill of the other. |
| `Canvas.FillIdempotent` | src/lib.rs:115-121 | Painting the same block twice with the same colour equals painting it once. |
| `Canvas.FillCommutes` | src/lib.rs:115-121 | Painting two disjoint pixel sets gives the same raster in either order. |
| `Canvas.GridFillsCommute` | src/lib.rs:115-121 | Fills of two different grid blocks commute, because grid blocks are disjoint. |
| `Canvas.PixelImage.constructor` | src/lib.rs:18-57 | Establishes the invariant: the side is `RoundUp(request, res)`, the map is the grid of that side, and the raster is side × side and all `(0,0,0,0)`. |
| `Canvas.PixelImage.Pixels` | src/lib.rs:59-61 | The keys are exactly `{(c, row) : c, row < s / r}`, and there are `(s / r)²` of them. |
| `Canvas.PixelImage.DrawPixel` | src/lib.rs:115-121 | Requires a grid key. Afterwards every raw pixel of that block has alpha 255 and the caller's red, green and blue; every other pixel is unchanged, and so is the map. The new raster equals `Fill` of the old one. |
| `Canvas.PaintBlock` | src/lib.rs:117-120 | Writing the colour to each listed pixel changes exactly the listed pixels. |
| `Canvas.ExampleGrid800` | src/lib.rs:135 | Resolution 10 and side 800 give a grid of 6400 keys, and every block of it has 100 raw pixels. |
| `Canvas.ExampleFillFirstBlock` | src/lib.rs:136 | Filling block `(0, 0)` with `(255, 3, 3)` paints exactly the raw pixels `[0, 10) × [0, 10)` and leaves the rest unchanged. |
| `Canvas.SmallGridBlock` | src/lib.rs:135-142 | Each block the test fills is a key of the 80 × 80 grid and holds its own corner pixel. Only block `(0, 0)` covers raw pixel `(0, 0)`, and none covers `(799, 799)`. |
| `Canvas.FillNearOrigin` | src/lib.rs:136-142 | One fill of the test: it finds its block and paints the block's corner pixel. Raw pixel `(0, 0)` changes only for block `(0, 0)`, and `(799, 799)` does not change. |
| `Canvas.ItWorks` | src/lib.rs:133-143 | The crate's test scenario. Each of the eight `draw_pixel` calls finds its block, so none panics, and right after it the corner pixel of that block is `(255, 3, 3, 255)`. At the end raw pixel `(0, 0)` is `(255, 3, 3, 255)`, and `(799, 799)` is still `(0, 0, 0, 0)`. |

## Left out

- `save_image` (src/lib.rs:123-125) and the file write in the test: these are file I/O and PNG encoding in the `image` crate.
- The `image` crate's `RgbaImage`: it is modelled as an `array2<Rgba>` of side × side, zero-filled as `ImageBuffer::new` fills it. Only indexed writes are modelled.
- The iteration order of `pixels()`: the `HashMap` keys are returned as a set.
- Fixed-width `u32` arithmetic: `image_size * image_size` and `pixel_resolution * pixel_resolution` can overflow, and so can `x + 1` / `y + 1` at `u32::MAX`. Coordinates and sizes here are unbounded naturals, so the model has neither overflow panics nor wrap-around.
- Neighbour queries return `seq<Coord>` in place of fixed-size Rust arrays. Their unused `&mut self` receiver is dropped, so they are module-level functions.
- `draw_pixel` takes its colour as a triple of `u8` in place of `[u8; 3]`. Its loop is the separate method `PaintBlock`, which works on the buffer alone.
- The resolution and corrected side are ghost constants of `PixelImage`, because the Rust struct does not store them.
- The `PixelImage::new` loops are the separate methods `CorrectSize` and `BuildGrid`, which the constructor calls.
