/** The tile-to-pixel expansion shared by the two file readers
    (src/read_printfox.cc:130-142, src/read_raw_charset.cc:62-73): tile t of
    a picture `width` tiles wide covers the 8 x 8 pixels from
    ((t % width) * 8, (t / width) * 8), its byte y0 is pixel row y0 and its
    bit 0x80 >> x0 is pixel column x0. The pixels are written tile by tile,
    row by row, column by column. */
module Tiles {
  import opened Matrices
  import opened Images

  /** The tile that pixel (px, py) belongs to. */
  function TileOf(width: nat, px: nat, py: nat): nat {
    Offset(width, px / 8, py / 8)
  }

  lemma TileInBounds(width: nat, height: nat, px: nat, py: nat)
    requires px < width * 8 && py < height * 8
    ensures TileOf(width, px, py) < width * height
    ensures TileOf(width, px, py) * 8 + 8 <= width * height * 8
  {
    OffsetInBounds(width, height, px / 8, py / 8);
  }

  /** The number of set calls made before the one for pixel (px, py). */
  function Order(width: nat, px: nat, py: nat): nat {
    TileOf(width, px, py) * 64 + (py % 8) * 8 + px % 8
  }

  /** The coordinates of pixel (x0, y0) of tile t, as the loops compute
      them, and its place in the writing order. */
  lemma OrderOfTile(width: nat, height: nat, tile: nat, x0: nat, y0: nat)
    requires tile < width * height && x0 < 8 && y0 < 8
    ensures width > 0
    ensures tile % width < width && tile / width < height
    ensures (tile % width) * 8 + x0 < width * 8 && (tile / width) * 8 + y0 < height * 8
    ensures Order(width, (tile % width) * 8 + x0, (tile / width) * 8 + y0) == tile * 64 + y0 * 8 + x0
  {
    var x, y := tile % width, tile / width;
    if y >= height {
      MulMonotone(height, y, width);
    }
    assert (x * 8 + x0) / 8 == x && (x * 8 + x0) % 8 == x0;
    assert (y * 8 + y0) / 8 == y && (y * 8 + y0) % 8 == y0;
    assert Offset(width, x, y) == tile;
  }

  /** Distinct pixels have distinct places in the writing order. */
  lemma OrderInjective(width: nat, px: nat, py: nat, px': nat, py': nat)
    requires px < width * 8 && px' < width * 8
    requires Order(width, px, py) == Order(width, px', py')
    ensures px == px' && py == py'
  {
    var t, t' := TileOf(width, px, py), TileOf(width, px', py');
    var r, r' := (py % 8) * 8 + px % 8, (py' % 8) * 8 + px' % 8;
    assert t * 64 + r == t' * 64 + r';
    assert t == t';
    OffsetInjective(width, px / 8, py / 8, px' / 8, py' / 8);
  }

  /** The first n pixels in writing order hold their colour under `want`,
      every other pixel is still 0. */
  ghost predicate PaintedUpTo(g: Grid, width: nat, height: nat, want: (nat, nat) -> bv8, n: nat) {
    && g.Wf() && g.width == width * 8 && g.height == height * 8
    && forall px, py {:trigger g.At(px, py)} :: 0 <= px < g.width && 0 <= py < g.height ==>
         g.At(px, py) == if Order(width, px, py) < n then want(px, py) else 0
  }

  lemma PaintStart(g: Grid, width: nat, height: nat, want: (nat, nat) -> bv8)
    requires g.width == width * 8 && g.height == height * 8
    requires g.cells == seq(g.width * g.height, _ => 0)
    ensures PaintedUpTo(g, width, height, want, 0)
  {
    forall px, py | 0 <= px < g.width && 0 <= py < g.height
      ensures g.At(px, py) == 0
    {
      OffsetInBounds(g.width, g.height, px, py);
    }
  }

  /** Setting the next pixel in writing order to its colour paints one more
      pixel. */
  lemma PaintStep(g: Grid, g': Grid, width: nat, height: nat, want: (nat, nat) -> bv8, px: nat, py: nat, n: nat)
    requires Order(width, px, py) == n && PaintedUpTo(g, width, height, want, n)
    requires px < g.width && py < g.height
    requires g'.Wf() && g'.width == g.width && g'.height == g.height
    requires g'.At(px, py) == want(px, py)
    requires forall x': nat, y': nat :: g'.InBounds(x', y') && (x', y') != (px, py) ==>
               g'.At(x', y') == g.At(x', y')
    ensures PaintedUpTo(g', width, height, want, n + 1)
  {
    forall x', y' | 0 <= x' < g'.width && 0 <= y' < g'.height && (x', y') != (px, py)
      ensures g'.At(x', y') == g.At(x', y') && Order(width, x', y') != n
    {
      if Order(width, x', y') == Order(width, px, py) {
        OrderInjective(width, x', y', px, py);
      }
    }
  }

  /** One set call of the tile loops: writing the colour of the next pixel
      in writing order paints one more pixel. */
  method PaintPixel(image: Image, width: nat, height: nat, px: nat, py: nat, v: bv8,
                    ghost want: (nat, nat) -> bv8, ghost n: nat)
    requires image.Valid() && px < width * 8 && py < height * 8
    requires Order(width, px, py) == n && want(px, py) == v
    requires PaintedUpTo(image.Value(), width, height, want, n)
    modifies image.pixels.data
    ensures image.Valid() && PaintedUpTo(image.Value(), width, height, want, n + 1)
  {
    ghost var before := image.Value();
    var ok := image.Set(px, py, v);
    PaintStep(before, image.Value(), width, height, want, px, py, n);
  }

  /** The bit loop for row y0 of tile `tile` at tile coordinates (x, y): the
      mask runs from 0x80 down while x0 counts the columns, and each pixel
      gets `on` where its bit of `byte` is set and `off` where it is clear. */
  method PaintRow(image: Image, width: nat, height: nat, tile: nat, x: nat, y: nat, y0: nat,
                  byte: bv8, on: bv8, off: bv8, ghost want: (nat, nat) -> bv8)
    requires image.Valid() && tile < width * height && y0 < 8
    requires x == tile % width && y == tile / width
    requires forall x0: nat {:trigger MsbBit(byte, x0)} :: x0 < 8 ==>
               want(x * 8 + x0, y * 8 + y0) == if MsbBit(byte, x0) then on else off
    requires PaintedUpTo(image.Value(), width, height, want, tile * 64 + y0 * 8)
    modifies image.pixels.data
    ensures image.Valid() && PaintedUpTo(image.Value(), width, height, want, tile * 64 + y0 * 8 + 8)
  {
    var x0: nat := 0;
    var bit: bv8 := 0x80;
    MaskBit(byte, 0);
    while bit != 0
      invariant x0 <= 8 && bit == Mask(x0)
      invariant image.Valid() && PaintedUpTo(image.Value(), width, height, want, tile * 64 + y0 * 8 + x0)
      decreases 8 - x0
    {
      MaskBit(byte, x0);
      RowPixel(width, height, tile, x, y, x0, y0, byte, on, off, want);
      PaintPixel(image, width, height, x * 8 + x0, y * 8 + y0, if byte & bit != 0 then on else off,
                 want, tile * 64 + y0 * 8 + x0);
      bit := bit >> 1;
      x0 := x0 + 1;
      MaskBit(byte, x0);
    }
  }

  /** Pixel x0 of row y0 of the tile: it lies in the image, it is the next
      one in writing order, and its colour is chosen by the mask bit. */
  lemma RowPixel(width: nat, height: nat, tile: nat, x: nat, y: nat, x0: nat, y0: nat,
                 byte: bv8, on: bv8, off: bv8, want: (nat, nat) -> bv8)
    requires tile < width * height && x0 < 8 && y0 < 8
    requires x == tile % width && y == tile / width
    requires forall x0: nat {:trigger MsbBit(byte, x0)} :: x0 < 8 ==>
               want(x * 8 + x0, y * 8 + y0) == if MsbBit(byte, x0) then on else off
    ensures x * 8 + x0 < width * 8 && y * 8 + y0 < height * 8
    ensures Order(width, x * 8 + x0, y * 8 + y0) == tile * 64 + y0 * 8 + x0
    ensures want(x * 8 + x0, y * 8 + y0) == if byte & Mask(x0) != 0 then on else off
  {
    MaskBit(byte, x0);
    OrderOfTile(width, height, tile, x0, y0);
    assert want(x * 8 + x0, y * 8 + y0) == if MsbBit(byte, x0) then on else off;
  }

  /** Once all width * height * 64 pixels are written, each has its colour. */
  lemma PaintDone(g: Grid, width: nat, height: nat, want: (nat, nat) -> bv8)
    requires PaintedUpTo(g, width, height, want, width * height * 64)
    ensures forall px, py :: 0 <= px < g.width && 0 <= py < g.height ==> g.At(px, py) == want(px, py)
  {
    forall px, py | 0 <= px < g.width && 0 <= py < g.height
      ensures Order(width, px, py) < width * height * 64
    {
      TileInBounds(width, height, px, py);
    }
  }

  /** The mask of the bit loop after x0 shifts of 0x80. */
  function Mask(x0: nat): bv8
    requires x0 <= 8
  {
    (0x80 as bv8) >> x0
  }

  /** The mask is the single bit 7 - x0 while a column is left, and no bit
      once all eight are done. */
  lemma MaskSingleBit(x0: nat)
    requires x0 <= 8
    ensures x0 < 8 ==> Mask(x0) == (1 as bv8) << (7 - x0)
    ensures x0 == 8 ==> Mask(x0) == 0
  {
  }

  /** The mask is nonzero for the eight columns, shifting it once more
      moves to the next column, and masking a byte with it tests bit
      7 - x0. */
  lemma MaskBit(byte: bv8, x0: nat)
    requires x0 <= 8
    ensures (Mask(x0) != 0) <==> x0 < 8
    ensures x0 < 8 ==> Mask(x0) >> 1 == Mask(x0 + 1)
    ensures x0 < 8 ==> (byte & Mask(x0) != 0) == MsbBit(byte, x0)
  {
    if x0 == 0 {
    } else if x0 == 1 {
    } else if x0 == 2 {
    } else if x0 == 3 {
    } else if x0 == 4 {
    } else if x0 == 5 {
    } else if x0 == 6 {
    } else if x0 == 7 {
    }
  }
}
