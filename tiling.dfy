/** The blocks of `GenerateProcessingRules`: the image is cut into BLOCK_SIZE x
    BLOCK_SIZE squares from the top-left corner, row by row, the last column and
    row of blocks clipped to the image. Block i is the i-th one the y/x loops
    visit. */
module Tiling {
  import opened Numeric
  import opened Image
  import opened RegionRule

  const BlockSize: int := 32

  /** `Math.Min`. */
  function Min(a: int, b: int): (m: int)
    ensures m <= a && m <= b && (m == a || m == b)
  {
    if a <= b then a else b
  }

  /** Blocks per row: the number of x in 0, 32, 64, ... below width, which is the
      fewest 32-wide columns that cover the width. */
  function Cols(width: int): (c: nat)
    requires 0 <= width
    ensures width <= BlockSize * c < width + BlockSize
  {
    (width + BlockSize - 1) / BlockSize
  }

  /** Blocks per column: the fewest 32-high rows that cover the height. */
  function Rows(height: int): (r: nat)
    requires 0 <= height
    ensures height <= BlockSize * r < height + BlockSize
  {
    (height + BlockSize - 1) / BlockSize
  }

  /** A loop `for (v = 0; v < n; v += BlockSize)` is at its t-th step while t < the block count. */
  lemma StepsBelow(n: int, t: int)
    requires 0 <= n && 0 <= t
    ensures BlockSize * t < n <==> t < (n + BlockSize - 1) / BlockSize
  {
  }

  /** The number of rules `GenerateProcessingRules` emits: none for an empty image. */
  function BlockCount(width: int, height: int): (n: nat)
    requires 0 <= width && 0 <= height
    ensures n == 0 <==> width == 0 || height == 0
  {
    var c, r := Cols(width), Rows(height);
    if c == 0 || r == 0 then c * r
    else
      MulLe(1, c, r);
      c * r
  }

  /** `new Rectangle(x, y, Math.Min(BLOCK_SIZE, Width - x), Math.Min(BLOCK_SIZE, Height - y))`
      for the i-th (x, y) in row-major order. */
  function Block(width: int, height: int, i: int): (r: Rectangle)
    requires 0 <= width && 0 <= height && 0 <= i < BlockCount(width, height)
    ensures r.Within(width, height)
  {
    var a, b := Col(Cols(width), Rows(height), i), Row(Cols(width), Rows(height), i);
    StepsBelow(width, a);
    StepsBelow(height, b);
    Rectangle(BlockSize * a, BlockSize * b, Min(BlockSize, width - BlockSize * a), Min(BlockSize, height - BlockSize * b))
  }

  /** The block that the loops visit at x = 32 * j, y = 32 * t. */
  lemma BlockAt(width: int, height: int, j: int, t: int)
    requires 0 <= width && 0 <= height && 0 <= j < Cols(width) && 0 <= t < Rows(height)
    ensures 0 <= t * Cols(width) + j < BlockCount(width, height)
    ensures Block(width, height, t * Cols(width) + j)
         == Rectangle(BlockSize * j, BlockSize * t, Min(BlockSize, width - BlockSize * j), Min(BlockSize, height - BlockSize * t))
  {
    CoordsOfIndex(Cols(width), Rows(height), j, t);
  }

  /** The block holding pixel (px, py). */
  function BlockOf(width: int, height: int, px: int, py: int): (i: int)
    requires 0 <= px < width && 0 <= py < height
    ensures 0 <= i < BlockCount(width, height)
  {
    CoordsOfIndex(Cols(width), Rows(height), px / BlockSize, py / BlockSize);
    (py / BlockSize) * Cols(width) + px / BlockSize
  }

  /** Every block is non-empty and at most 32 x 32. */
  lemma BlockInside(width: int, height: int, i: int)
    requires 0 <= width && 0 <= height && 0 <= i < BlockCount(width, height)
    ensures 1 <= Block(width, height, i).width <= BlockSize && 1 <= Block(width, height, i).height <= BlockSize
  {
    var a, b := Col(Cols(width), Rows(height), i), Row(Cols(width), Rows(height), i);
    StepsBelow(width, a);
    StepsBelow(height, b);
  }

  /** Pixel (px, py) lies in block i exactly when i is its block: every pixel lies
      in one block and in no other. */
  lemma BlockCovers(width: int, height: int, i: int, px: int, py: int)
    requires 0 <= width && 0 <= height && 0 <= i < BlockCount(width, height)
    requires 0 <= px < width && 0 <= py < height
    ensures Block(width, height, i).Covers(px, py) <==> BlockOf(width, height, px, py) == i
  {
    var c, r := Cols(width), Rows(height);
    var a, b := Col(c, r, i), Row(c, r, i);
    StepsBelow(width, px / BlockSize);
    StepsBelow(height, py / BlockSize);
    CoordsOfIndex(c, r, px / BlockSize, py / BlockSize);
    var blk := Block(width, height, i);
    assert blk.Covers(px, py) <==> a == px / BlockSize && b == py / BlockSize;
  }

  /** Two different blocks share no pixel. */
  lemma BlocksDisjoint(width: int, height: int, i: int, j: int, px: int, py: int)
    requires 0 <= width && 0 <= height && 0 <= i < BlockCount(width, height) && 0 <= j < BlockCount(width, height)
    requires 0 <= px < width && 0 <= py < height && i != j
    ensures !(Block(width, height, i).Covers(px, py) && Block(width, height, j).Covers(px, py))
  {
    BlockCovers(width, height, i, px, py);
    BlockCovers(width, height, j, px, py);
  }

  /** Together the blocks cover the image. */
  lemma BlocksCover(width: int, height: int, px: int, py: int)
    requires 0 <= px < width && 0 <= py < height
    ensures exists i :: 0 <= i < BlockCount(width, height) && Block(width, height, i).Covers(px, py)
  {
    var i := BlockOf(width, height, px, py);
    BlockCovers(width, height, i, px, py);
  }

  /** Blocks come in row-major order: a later block starts on a lower row of
      blocks, or further right on the same one. */
  lemma RowMajor(width: int, height: int, i: int, j: int)
    requires 0 <= width && 0 <= height && 0 <= i < j < BlockCount(width, height)
    ensures var p, q := Block(width, height, i), Block(width, height, j);
      p.y < q.y || (p.y == q.y && p.x < q.x)
  {
    var c, r := Cols(width), Rows(height);
    var ai, bi, aj, bj := Col(c, r, i), Row(c, r, i), Col(c, r, j), Row(c, r, j);
    if bj < bi {
      MulLe(bj + 1, bi, c);
      assert false;
    } else if bj == bi {
      assert ai < aj;
    }
  }
}
