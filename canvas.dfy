/**
 * The PixelImage itself: an RGBA raster of side `size` together with the
 * block grid that maps each block coordinate to the raw pixels it covers.
 * Filling a block paints all of its raw pixels with one opaque colour.
 */
module Canvas {
  import opened Sizing
  import opened Blocks
  import Neighbours

  newtype u8 = x: int | 0 <= x < 256

  /** One raster pixel: red, green, blue and alpha channels. */
  datatype Rgba = Rgba(r: u8, g: u8, b: u8, a: u8)

  /** The colour a fresh raster is filled with. */
  const Blank := Rgba(0, 0, 0, 0)

  /** The colour `draw_pixel` writes for the channels `rgb`: always fully opaque. */
  function OpaqueColour(rgb: (u8, u8, u8)): Rgba
  {
    Rgba(rgb.0, rgb.1, rgb.2, 255)
  }

  /** A raster as a value: rows of columns, indexed `[x][y]`. */
  type Raster = seq<seq<Rgba>>

  /** Every column of the raster has `h` pixels. */
  predicate Rectangular(cv: Raster, h: nat)
  {
    forall x :: 0 <= x < |cv| ==> |cv[x]| == h
  }

  /** The raster `cv` with every pixel in `block` painted `colour`. */
  function Fill(cv: Raster, block: set<Coord>, colour: Rgba): Raster
  {
    seq(|cv|, x requires 0 <= x < |cv| =>
      seq(|cv[x]|, y requires 0 <= y < |cv[x]| =>
        if (x, y) in block then colour else cv[x][y]))
  }

  /** A raster that agrees with `Fill` pixel by pixel is that fill. */
  lemma FillPointwise(before: Raster, after: Raster, block: set<Coord>, colour: Rgba)
    requires |after| == |before|
    requires forall x :: 0 <= x < |before| ==> |after[x]| == |before[x]|
    requires forall x, y :: 0 <= x < |before| && 0 <= y < |before[x]| ==>
               after[x][y] == if (x, y) in block then colour else before[x][y]
    ensures after == Fill(before, block, colour)
  {
    var want := Fill(before, block, colour);
    forall x | 0 <= x < |before|
      ensures after[x] == want[x]
    {
    }
  }

  /** Painting the same block twice with the same colour is the same as painting it once. */
  lemma FillIdempotent(cv: Raster, block: set<Coord>, colour: Rgba)
    ensures Fill(Fill(cv, block, colour), block, colour) == Fill(cv, block, colour)
  {
    var once := Fill(cv, block, colour);
    var twice := Fill(once, block, colour);
    forall x | 0 <= x < |cv|
      ensures twice[x] == once[x]
    {
    }
  }

  /** Painting two disjoint blocks gives the same raster in either order. */
  lemma FillCommutes(cv: Raster, b1: set<Coord>, c1: Rgba, b2: set<Coord>, c2: Rgba)
    requires b1 !! b2
    ensures Fill(Fill(cv, b1, c1), b2, c2) == Fill(Fill(cv, b2, c2), b1, c1)
  {
    var one := Fill(Fill(cv, b1, c1), b2, c2);
    var two := Fill(Fill(cv, b2, c2), b1, c1);
    forall x | 0 <= x < |cv|
      ensures one[x] == two[x]
    {
    }
  }

  /** Filling two different blocks of a grid gives the same raster in either order. */
  lemma GridFillsCommute(n: nat, r: nat, cv: Raster, p1: Coord, c1: Rgba, p2: Coord, c2: Rgba)
    requires r >= 1 && p1 in Grid(n, r) && p2 in Grid(n, r) && p1 != p2
    ensures Fill(Fill(cv, Elems(Grid(n, r)[p1]), c1), Elems(Grid(n, r)[p2]), c2)
         == Fill(Fill(cv, Elems(Grid(n, r)[p2]), c2), Elems(Grid(n, r)[p1]), c1)
  {
    BlocksDisjoint(r, p1, p2);
    FillCommutes(cv, Elems(Grid(n, r)[p1]), c1, Elems(Grid(n, r)[p2]), c2);
  }

  /** The content of a raster buffer as a value. */
  ghost function RasterOf(a: array2<Rgba>): Raster
    reads a
  {
    seq(a.Length0, x requires 0 <= x < a.Length0 reads a =>
      seq(a.Length1, y requires 0 <= y < a.Length1 reads a => a[x, y]))
  }

  /** The value of a buffer has its shape and holds its pixels. */
  lemma RasterOfContents(a: array2<Rgba>)
    ensures |RasterOf(a)| == a.Length0 && Rectangular(RasterOf(a), a.Length1)
    ensures forall x, y :: 0 <= x < a.Length0 && 0 <= y < a.Length1 ==> RasterOf(a)[x][y] == a[x, y]
  {
  }

  /**
   * `PixelImage`: the raster buffer `img` and the block map `pixels`. The
   * block resolution and the corrected side length are not stored by the
   * image; they are kept here as ghost constants to state its invariant.
   */
  class PixelImage {
    var img: array2<Rgba>
    var pixels: map<Coord, seq<Coord>>
    ghost const res: nat
    ghost const size: nat

    /** The raster is `size`-by-`size`, `size` is a multiple of `res`, and the map is the block grid. */
    ghost predicate Valid()
      reads this
    {
      res >= 1 && size % res == 0 &&
      img.Length0 == size && img.Length1 == size &&
      pixels == Grid(size / res, res)
    }

    /** The content of the raster as a value. */
    ghost function Raster(): Raster
      reads this, img
    {
      RasterOf(img)
    }

    /**
     * `PixelImage::new`: corrects the side length to the least value at or
     * above `imageSize` whose area is a multiple of the block area, builds
     * the block grid for it and allocates a blank raster of that side.
     */
    constructor (pixelResolution: nat, imageSize: nat)
      requires pixelResolution >= 1
      ensures Valid() && fresh(img)
      ensures res == pixelResolution && size == RoundUp(imageSize, pixelResolution)
      ensures forall x, y :: 0 <= x < size && 0 <= y < size ==> img[x, y] == Blank
    {
      var s := CorrectSize(pixelResolution, imageSize);
      var grid := BuildGrid(pixelResolution, s);
      res := pixelResolution;
      size := s;
      pixels := grid;
      img := new Rgba[s, s]((x, y) => Blank);
    }

    /** `pixels()`: the block coordinates, exactly those of the `size/res`-by-`size/res` grid. */
    function Pixels(): (keys: set<Coord>)
      reads this
      requires Valid()
      ensures keys == Keys(size / res)
      ensures |keys| == (size / res) * (size / res)
    {
      GridSize(size / res, res);
      pixels.Keys
    }

    /**
     * `draw_pixel`: paints every raw pixel of block `(x, y)` with the opaque
     * colour `rgb`; every other raster pixel and the block map stay as they were.
     */
    method DrawPixel(x: nat, y: nat, rgb: (u8, u8, u8))
      requires Valid() && (x, y) in pixels
      modifies img
      ensures Valid() && pixels == old(pixels)
      ensures forall a, b :: 0 <= a < size && 0 <= b < size ==>
                img[a, b] == if (a, b) in pixels[(x, y)] then OpaqueColour(rgb) else old(img[a, b])
      ensures forall a, b :: 0 <= a < size && 0 <= b < size && (a, b) in pixels[(x, y)] ==>
                img[a, b].a == 255 && (img[a, b].r, img[a, b].g, img[a, b].b) == rgb
      ensures Raster() == Fill(old(Raster()), Elems(pixels[(x, y)]), OpaqueColour(rgb))
    {
      var block := pixels[(x, y)];
      assert forall q :: q in block ==> q.0 < img.Length0 && q.1 < img.Length1 by {
        GridBlockInImage(size / res, res, (x, y));
        assert size / res * res == size;
      }
      PaintBlock(img, block, OpaqueColour(rgb));
    }
  }

  /**
   * The loop of `draw_pixel`: writes `colour` to every raw pixel listed in
   * `block`, in list order, leaving the rest of the buffer as it was.
   */
  method PaintBlock(img: array2<Rgba>, block: seq<Coord>, colour: Rgba)
    requires forall q :: q in block ==> q.0 < img.Length0 && q.1 < img.Length1
    modifies img
    ensures forall a, b :: 0 <= a < img.Length0 && 0 <= b < img.Length1 ==>
              img[a, b] == if (a, b) in block then colour else old(img[a, b])
    ensures RasterOf(img) == Fill(old(RasterOf(img)), Elems(block), colour)
  {
    ghost var before := RasterOf(img);
    RasterOfContents(img);
    for i := 0 to |block|
      invariant forall a, b :: 0 <= a < img.Length0 && 0 <= b < img.Length1 ==>
                  img[a, b] == if (a, b) in block[..i] then colour else old(img[a, b])
    {
      var p := block[i];
      img[p.0, p.1] := colour;
      assert block[..i + 1] == block[..i] + [p];
    }
    assert block[..|block|] == block;
    RasterOfContents(img);
    FillPointwise(before, RasterOf(img), Elems(block), colour);
  }

  /**
   * The image of the crate's test (src/lib.rs:135): blocks of 10 on a side
   * of 800 give 6400 blocks of 100 raw pixels each.
   */
  lemma ExampleGrid800()
    ensures |Grid(80, 10).Keys| == 6400
    ensures forall p :: p in Grid(80, 10) ==> |Grid(80, 10)[p]| == 100
  {
    GridSize(80, 10);
  }

  /**
   * The first fill of the crate's test (src/lib.rs:136): filling block
   * `(0, 0)` of a 10-resolution grid paints exactly the raw pixels of
   * `[0, 10) x [0, 10)`.
   */
  lemma ExampleFillFirstBlock(cv: Raster, q: Coord)
    requires |cv| == 800 && Rectangular(cv, 800) && q.0 < 800 && q.1 < 800
    ensures Fill(cv, Elems(BlockPixels(0, 0, 10)), OpaqueColour((255, 3, 3)))[q.0][q.1] ==
              if q.0 < 10 && q.1 < 10 then Rgba(255, 3, 3, 255) else cv[q.0][q.1]
  {
    InBlockSquare(0, 0, 10, q);
  }

  /**
   * A block near the origin of the 80-by-80 grid of the crate's test: it is
   * a key of the grid, it holds its own corner pixel `(10 * c, 10 * row)`,
   * and it holds neither raw pixel `(799, 799)` nor, unless it is block
   * `(0, 0)`, raw pixel `(0, 0)`.
   */
  lemma SmallGridBlock(n: Coord)
    requires n.0 <= 5 && n.1 <= 5
    ensures n in Grid(80, 10)
    ensures n.0 * 10 <= 50 && n.1 * 10 <= 50 && (n.0 * 10, n.1 * 10) in Grid(80, 10)[n]
    ensures (0, 0) in Grid(80, 10)[n] <==> n == (0, 0)
    ensures (799, 799) !in Grid(80, 10)[n]
  {
    assert n in Keys(80);
    MulLe(n.0, 5, 10);
    MulLe(n.1, 5, 10);
    InBlockIff(n.0, n.1, 10, (0, 0));
    InBlockIff(n.0, n.1, 10, (n.0 * 10, n.1 * 10));
    InBlockIff(n.0, n.1, 10, (799, 799));
  }

  /**
   * One fill of the crate's test on its 800-by-800 image with blocks of 10:
   * block `n` is a grid key, so the fill finds it. Afterwards the corner
   * pixel of the block holds the fill colour, raw pixel `(0, 0)` holds it
   * when `n` is block `(0, 0)` and is unchanged otherwise, and raw pixel
   * `(799, 799)` is unchanged.
   */
  method FillNearOrigin(image: PixelImage, n: Coord, rgb: (u8, u8, u8)) returns (corner: Rgba)
    requires image.Valid() && image.size == 800 && image.res == 10
    requires n.0 <= 5 && n.1 <= 5
    modifies image.img
    ensures image.Valid()
    ensures corner == OpaqueColour(rgb)
    ensures image.img[0, 0] == if n == (0, 0) then OpaqueColour(rgb) else old(image.img[0, 0])
    ensures image.img[799, 799] == old(image.img[799, 799])
  {
    SmallGridBlock(n);
    image.DrawPixel(n.0, n.1, rgb);
    corner := image.img[n.0 * 10, n.1 * 10];
  }

  /**
   * The scenario of the crate's own test: a 10-resolution image of side 800,
   * five blocks on the diagonal filled, then the three right-hand neighbours
   * of block `(4, 4)`. Every fill finds its block, so none panics. Right
   * after each fill the corner pixel of that block holds the opaque fill
   * colour; at the end raw pixel `(0, 0)` holds it too, and the far corner
   * `(799, 799)`, outside every filled block, is still blank.
   */
  method ItWorks() returns (corners: seq<Rgba>, first: Rgba, far: Rgba)
    ensures |corners| == 8 && forall k :: 0 <= k < |corners| ==> corners[k] == Rgba(255, 3, 3, 255)
    ensures first == Rgba(255, 3, 3, 255)
    ensures far == Blank
  {
    var image := new PixelImage(10, 800);
    var red: (u8, u8, u8) := (255, 3, 3);
    var right := Neighbours.DirectionNeighbours(4, 4, Neighbours.Right);
    Neighbours.ExamplesAtFourFour();
    var calls := [(0, 0), (1, 1), (2, 2), (3, 3), (4, 4)] + right;
    assert forall k :: 0 <= k < |calls| ==> calls[k].0 <= 5 && calls[k].1 <= 5;
    corners := [];
    for i := 0 to |calls|
      invariant image.Valid() && image.size == 800 && image.res == 10 && fresh(image.img)
      invariant |corners| == i && forall k :: 0 <= k < i ==> corners[k] == OpaqueColour(red)
      invariant image.img[0, 0] == if i == 0 then Blank else OpaqueColour(red)
      invariant image.img[799, 799] == Blank
    {
      var corner := FillNearOrigin(image, calls[i], red);
      corners := corners + [corner];
    }
    first := image.img[0, 0];
    far := image.img[799, 799];
  }
}
