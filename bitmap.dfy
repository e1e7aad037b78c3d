/** C64 hi-res bitmaps (src/Bitmap.cc): one 8x8 one-bit tile per cell in
    a linear plane, 8 bytes per cell in row-major cell order, and a screen
    matrix holding each cell's two colours as nibbles. The plane is modelled
    as one 8-byte tile per cell; `Save` gives its bytes. */
module Bitmaps {
  import opened Errors
  import opened Matrices
  import opened Palettes
  import opened Images
  import opened Charsets

  /** The hint of an optional colour as set_tile receives it: 0 when unset. */
  function OrZero(c: Option<bv8>): bv8 {
    if c.Some? then c.value else 0
  }

  /** The screen byte set_tile stores: its third parameter in the low nibble
      and its fourth shifted into the high nibble, truncated to 8 bits. */
  function Nibbles(low: bv8, high: bv8): bv8 {
    low | (high << 4)
  }

  /** For colours below 16 both nibbles read back unchanged. */
  lemma NibblesRoundTrip(low: bv8, high: bv8)
    requires low < 16 && high < 16
    ensures Nibbles(low, high) & 0x0F == low
    ensures Nibbles(low, high) >> 4 == high
  {
  }

  /** The screen byte of a converted cell. The constructor passes the
      resolved background as set_tile's `foreground_color` and the resolved
      foreground as its `background_color`, so the background ends up in
      the low nibble and the foreground in the high one. */
  function ScreenByte(h: Hints): bv8 {
    Nibbles(OrZero(h.background), OrZero(h.foreground))
  }

  /** The eight strip origins of cell (cx, cy), top row first. */
  function CellOrigins(cx: nat, cy: nat): (o: seq<(nat, nat)>)
    ensures |o| == 8
    ensures forall r :: 0 <= r < 8 ==> o[r] == (cx * 8, cy * 8 + r)
  {
    var x, y := cx * 8, cy * 8;
    [(x, y), (x, y + 1), (x, y + 2), (x, y + 3), (x, y + 4), (x, y + 5), (x, y + 6), (x, y + 7)]
  }

  /** One cell of the conversion: its eight rows read with get_byte, the
      hints seeded from `h` and carried from row to row. */
  function Cell(g: Grid, t: bv8, cx: nat, cy: nat, h: Hints): Result<(seq<bv8>, Hints)>
    requires g.Wf()
  {
    Strips(g, t, CellOrigins(cx, cy), h)
  }

  /** A successful cell has eight bytes. */
  lemma CellLength(g: Grid, t: bv8, cx: nat, cy: nat, h: Hints)
    requires g.Wf() && Cell(g, t, cx, cy, h).Ok?
    ensures |Cell(g, t, cx, cy, h).value.0| == 8
  {
    StripsLength(g, t, CellOrigins(cx, cy), h);
  }

  /** The image dimensions the conversion accepts. */
  predicate Divisible(g: Grid) {
    g.width % 8 == 0 && g.height % 8 == 0
  }

  /** Cells before (cx, cy) in the order the constructor visits them. */
  predicate Before(cx': nat, cy': nat, cx: nat, cy: nat) {
    cy' < cy || (cy' == cy && cx' < cx)
  }

  /** Every cell of an image whose dimensions are multiples of 8 is read
      entirely inside the image, so the only way it can fail is a colour
      clash at a pixel of that cell. */
  lemma CellErrorIsClash(g: Grid, t: bv8, cx: nat, cy: nat, h: Hints)
    requires g.Wf() && Divisible(g) && cx < g.width / 8 && cy < g.height / 8
    requires Cell(g, t, cx, cy, h).Err?
    ensures Cell(g, t, cx, cy, h).error.ColorClash?
    ensures var e := Cell(g, t, cx, cy, h).error;
      cx * 8 <= e.x < cx * 8 + 8 && cy * 8 <= e.y < cy * 8 + 8
  {
    assert CellOrigins(cx, cy)[..8] == CellOrigins(cx, cy);
    CellErrorRows(g, t, cx, cy, h, 8);
  }

  lemma {:induction false} CellErrorRows(g: Grid, t: bv8, cx: nat, cy: nat, h: Hints, k: nat)
    requires g.Wf() && Divisible(g) && cx < g.width / 8 && cy < g.height / 8 && k <= 8
    requires Strips(g, t, CellOrigins(cx, cy)[..k], h).Err?
    ensures var e := Strips(g, t, CellOrigins(cx, cy)[..k], h).error;
      e.ColorClash? && cx * 8 <= e.x < cx * 8 + 8 && cy * 8 <= e.y < cy * 8 + 8
    decreases k
  {
    var o := CellOrigins(cx, cy);
    assert k != 0 by {
      assert o[..0] == [];
    }
    StripsSnoc(g, t, o, h, k - 1);
    if Strips(g, t, o[..k - 1], h).Err? {
      CellErrorRows(g, t, cx, cy, h, k - 1);
    } else {
      var h1 := Strips(g, t, o[..k - 1], h).value.1;
      var (x, y) := o[k - 1];
      assert RowByte(g, t, x, y, h1).Err?;
      assert x % 8 == 0 && x + 8 <= g.width && y < g.height by {
        assert x == cx * 8 && y == cy * 8 + k - 1;
      }
      var e := RowByte(g, t, x, y, h1).error;
      assert Readable(g, x, y) == 8;
      RowByteClashOnly(g, t, x, y, h1);
    }
  }

  /** get_byte on a strip that lies inside the image fails only with a
      colour clash inside that strip. */
  lemma RowByteClashOnly(g: Grid, t: bv8, x: nat, y: nat, h: Hints)
    requires g.Wf() && x % 8 == 0 && x + 8 <= g.width && y < g.height
    requires RowByte(g, t, x, y, h).Err?
    ensures var e := RowByte(g, t, x, y, h).error;
      e.ColorClash? && e.y == y && x <= e.x < x + 8
  {
    assert Readable(g, x, y) == 8;
    var row := Row(g, x, y, 8);
    if Resolve(row, t, h).ClashAt? {
      RowByteClash(g, t, x, y, h, x + Resolve(row, t, h).index, y);
    }
  }

  /** A hint colour below 16, or no hint. */
  predicate Below16(c: Option<bv8>) {
    c.Some? ==> c.value < 16
  }

  /** The colours get_byte adopts are pixels of the row, so hints below 16
      stay below 16 over a row of such pixels. */
  lemma {:induction false} ResolveBelow16(ps: seq<bv8>, t: bv8, h: Hints)
    requires forall i :: 0 <= i < |ps| ==> ps[i] < 16
    requires Below16(h.background) && Below16(h.foreground)
    requires Resolve(ps, t, h).Scanned?
    ensures Below16(Resolve(ps, t, h).hints.background) && Below16(Resolve(ps, t, h).hints.foreground)
    decreases |ps|
  {
    if ps != [] {
      ResolveBelow16(ps[..|ps| - 1], t, h);
    }
  }

  /** Every pixel of cell (cx, cy) is a colour below 16. */
  predicate CellBelow16(g: Grid, cx: nat, cy: nat)
    requires g.Wf()
  {
    forall x, y :: cx * 8 <= x < cx * 8 + 8 && cy * 8 <= y < cy * 8 + 8 && g.InBounds(x, y) ==> g.At(x, y) < 16
  }

  /** Byte `byte` agrees with the eight pixels from (x, y) under hints `h`:
      a set bit is a pixel of the foreground colour, a clear bit a
      transparent pixel or one of the background colour. */
  predicate StripFaithful(g: Grid, t: bv8, x: nat, y: nat, byte: bv8, h: Hints)
    requires g.Wf() && x + 8 <= g.width && y < g.height
  {
    forall b :: 0 <= b < 8 ==>
      (MsbBit(byte, b) ==> h.foreground == Some(g.At(x + b, y))) &&
      (!MsbBit(byte, b) ==> g.At(x + b, y) == t || h.background == Some(g.At(x + b, y)))
  }

  /** Hints set later in the cell keep a strip faithful. */
  lemma FaithfulExtends(g: Grid, t: bv8, x: nat, y: nat, byte: bv8, h: Hints, h': Hints)
    requires g.Wf() && x + 8 <= g.width && y < g.height
    requires StripFaithful(g, t, x, y, byte, h) && Extends(h, h')
    ensures StripFaithful(g, t, x, y, byte, h')
  {
  }

  /** A successful get_byte is faithful to its strip under its final hints. */
  lemma RowByteFaithful(g: Grid, t: bv8, x: nat, y: nat, h: Hints)
    requires g.Wf() && RowByte(g, t, x, y, h).Ok?
    ensures x + 8 <= g.width && y < g.height
    ensures Extends(h, RowByte(g, t, x, y, h).value.1)
    ensures StripFaithful(g, t, x, y, RowByte(g, t, x, y, h).value.0, RowByte(g, t, x, y, h).value.1)
  {
    RowByteBits(g, t, x, y, h);
  }

  /** The first |tile| rows of cell (cx, cy) lie in the image and each is
      faithful to its byte of `tile` under hints `h`. */
  predicate RowsFaithful(g: Grid, t: bv8, cx: nat, cy: nat, tile: seq<bv8>, h: Hints)
    requires g.Wf()
  {
    && (|tile| > 0 ==> cx * 8 + 8 <= g.width && cy * 8 + |tile| <= g.height)
    && forall r :: 0 <= r < |tile| ==>
         cx * 8 + 8 <= g.width && cy * 8 + r < g.height &&
         StripFaithful(g, t, cx * 8, cy * 8 + r, tile[r], h)
  }

  /** Over the first k rows of a cell, every byte read so far is faithful
      to its strip under the hints after those rows. */
  lemma {:induction false} CellRowsFaithful(g: Grid, t: bv8, cx: nat, cy: nat, h: Hints, k: nat)
    requires g.Wf() && k <= 8
    requires Strips(g, t, CellOrigins(cx, cy)[..k], h).Ok?
    ensures var (tile, h') := Strips(g, t, CellOrigins(cx, cy)[..k], h).value;
      && |tile| == k
      && Extends(h, h')
      && RowsFaithful(g, t, cx, cy, tile, h')
    decreases k
  {
    var o := CellOrigins(cx, cy);
    if k == 0 {
      assert o[..0] == [];
    } else {
      StripsSnoc(g, t, o, h, k - 1);
      CellRowsFaithful(g, t, cx, cy, h, k - 1);
      var (tile0, h1) := Strips(g, t, o[..k - 1], h).value;
      var (x, y) := o[k - 1];
      var (byte, h2) := RowByte(g, t, x, y, h1).value;
      var tile := tile0 + [byte];
      assert Strips(g, t, o[..k], h).value == (tile, h2);
      RowByteFaithful(g, t, x, y, h1);
      FaithfulSnoc(g, t, cx, cy, tile0, x, y, byte, h1, h2);
    }
  }

  /** One more faithful row, under hints that extend those of the rows
      before it, keeps all rows faithful. */
  lemma FaithfulSnoc(g: Grid, t: bv8, cx: nat, cy: nat, tile: seq<bv8>, x: nat, y: nat, byte: bv8, h: Hints, h': Hints)
    requires g.Wf() && x == cx * 8 && y == cy * 8 + |tile| && x + 8 <= g.width && y < g.height
    requires RowsFaithful(g, t, cx, cy, tile, h)
    requires Extends(h, h') && StripFaithful(g, t, x, y, byte, h')
    ensures RowsFaithful(g, t, cx, cy, tile + [byte], h')
  {
    forall r | 0 <= r < |tile| + 1
      ensures StripFaithful(g, t, cx * 8, cy * 8 + r, (tile + [byte])[r], h')
    {
      if r < |tile| {
        assert (tile + [byte])[r] == tile[r];
        FaithfulExtends(g, t, cx * 8, cy * 8 + r, tile[r], h, h');
      }
    }
  }

  /** Over the first k rows of a cell of colours below 16, hints below 16
      stay below 16. */
  lemma {:induction false} CellRowsBelow16(g: Grid, t: bv8, cx: nat, cy: nat, h: Hints, k: nat)
    requires g.Wf() && k <= 8 && CellBelow16(g, cx, cy)
    requires Below16(h.background) && Below16(h.foreground)
    requires Strips(g, t, CellOrigins(cx, cy)[..k], h).Ok?
    ensures var h' := Strips(g, t, CellOrigins(cx, cy)[..k], h).value.1;
      Below16(h'.background) && Below16(h'.foreground)
    decreases k
  {
    var o := CellOrigins(cx, cy);
    if k == 0 {
      assert o[..0] == [];
    } else {
      StripsSnoc(g, t, o, h, k - 1);
      CellRowsBelow16(g, t, cx, cy, h, k - 1);
      var h1 := Strips(g, t, o[..k - 1], h).value.1;
      var (x, y) := o[k - 1];
      assert RowByte(g, t, x, y, h1).Ok?;
      RowByteBits(g, t, x, y, h1);
      var row := Row(g, x, y, 8);
      assert forall i :: 0 <= i < 8 ==> row[i] == g.At(x + i, y);
      ResolveBelow16(row, t, h1);
    }
  }

  /** The round trip of a converted cell: for each pixel that is not
      transparent and whose colour is below 16 (as are the hints given), its
      tile bit selects the high nibble of the screen byte when set and the
      low nibble when clear, and that nibble is the pixel's colour. */
  lemma CellRoundTrip(g: Grid, t: bv8, cx: nat, cy: nat, h: Hints)
    requires g.Wf() && CellBelow16(g, cx, cy)
    requires Below16(h.background) && Below16(h.foreground)
    requires Cell(g, t, cx, cy, h).Ok?
    ensures cx * 8 + 8 <= g.width && cy * 8 + 8 <= g.height
    ensures var (tile, h') := Cell(g, t, cx, cy, h).value;
      && |tile| == 8
      && forall r, b :: 0 <= r < 8 && 0 <= b < 8 && g.At(cx * 8 + b, cy * 8 + r) != t ==>
           (if MsbBit(tile[r], b) then ScreenByte(h') >> 4 else ScreenByte(h') & 0x0F) ==
           g.At(cx * 8 + b, cy * 8 + r)
  {
    var o := CellOrigins(cx, cy);
    assert o[..8] == o;
    CellRowsFaithful(g, t, cx, cy, h, 8);
    CellRowsBelow16(g, t, cx, cy, h, 8);
    var (tile, h') := Cell(g, t, cx, cy, h).value;
    NibblesRoundTrip(OrZero(h'.background), OrZero(h'.foreground));
    forall r, b | 0 <= r < 8 && 0 <= b < 8 && g.At(cx * 8 + b, cy * 8 + r) != t
      ensures (if MsbBit(tile[r], b) then ScreenByte(h') >> 4 else ScreenByte(h') & 0x0F) ==
              g.At(cx * 8 + b, cy * 8 + r)
    {
      assert StripFaithful(g, t, cx * 8, cy * 8 + r, tile[r], h');
    }
  }

  class Bitmap {
    /** Width and height in cells. */
    const width: nat
    const height: nat
    /** The bitmap plane, one 8-byte tile per cell in row-major order. */
    const bitmap: array<Tile>
    /** The screen matrix, one colour byte per cell. */
    const screen: Matrix

    predicate Valid()
      reads bitmap
    {
      && bitmap.Length == width * height
      && (forall i :: 0 <= i < bitmap.Length ==> |bitmap[i]| == 8)
      && screen.Valid() && screen.width == width && screen.height == height
      && bitmap as object != screen.data
    }

    /** The tile of cell (x, y). */
    function TileAt(x: nat, y: nat): Tile
      requires Valid() && x < width && y < height
      reads bitmap
    {
      OffsetInBounds(width, height, x, y);
      bitmap[Offset(width, x, y)]
    }

    /** The screen byte of cell (x, y). */
    function ColorAt(x: nat, y: nat): bv8
      requires Valid() && x < width && y < height
      reads bitmap, screen.data
    {
      screen.Value().At(x, y)
    }

    /** Cell (x, y) holds what the conversion of cell (x, y) of `g` with
        the seed hints `h` computes. */
    predicate Encodes(g: Grid, t: bv8, h: Hints, x: nat, y: nat)
      requires Valid() && g.Wf() && x < width && y < height
      reads bitmap, screen.data
    {
      Cell(g, t, x, y, h).Ok? &&
      TileAt(x, y) == Cell(g, t, x, y, h).value.0 &&
      ColorAt(x, y) == ScreenByte(Cell(g, t, x, y, h).value.1)
    }

    /** Bitmap(w, h): a zeroed plane and a zeroed screen of w x h cells. */
    constructor (w: nat, h: nat)
      ensures Valid() && width == w && height == h
      ensures fresh(bitmap) && fresh(screen) && fresh(screen.data)
      ensures forall x, y :: 0 <= x < w && 0 <= y < h ==> TileAt(x, y) == Blank && ColorAt(x, y) == 0
    {
      width, height := w, h;
      bitmap := new Tile[w * h](_ => Blank);
      screen := new Matrix(w, h);
      new;
      forall x, y | 0 <= x < w && 0 <= y < h
        ensures TileAt(x, y) == Blank
      {
        OffsetInBounds(w, h, x, y);
      }
    }

    /** Bitmap::set_tile: copies the tile into cell (x, y) of the plane and
        stores Nibbles(foreground, background) on the screen; no other cell
        changes. */
    method SetTile(x: nat, y: nat, tile: Tile, foreground: bv8, background: bv8)
      requires Valid() && x < width && y < height && |tile| == 8
      modifies bitmap, screen.data
      ensures Valid()
      ensures TileAt(x, y) == tile && ColorAt(x, y) == Nibbles(foreground, background)
      ensures forall x', y' :: 0 <= x' < width && 0 <= y' < height && (x', y') != (x, y) ==>
                TileAt(x', y') == old(TileAt(x', y')) && ColorAt(x', y') == old(ColorAt(x', y'))
    {
      OffsetInBounds(width, height, x, y);
      ghost var before := bitmap[..];
      var k := y * width + x;
      bitmap[k] := tile;
      assert bitmap[..] == before[k := tile];
      assert forall i :: 0 <= i < bitmap.Length ==> |bitmap[i]| == 8;
      UpdateOthers(width, height, before, x, y, tile);
      var ok := screen.Set(x, y, Nibbles(foreground, background));
    }

    /** Bitmap(image, background, foreground): every cell converted in
        row-major order with the hints re-seeded from the arguments; the
        dimensions must be multiples of 8, and the first cell that fails,
        in that order, gives the error. */
    static method FromImage(image: Image, background: Option<bv8>, foreground: Option<bv8>)
      returns (r: Result<Bitmap>)
      requires image.Valid()
      ensures var g := image.Value();
        !Divisible(g) ==> r == Err(DimensionsNotMultipleOf8)
      ensures var g, t, h := image.Value(), image.palette.transparentIndex, Hints(background, foreground);
        r.Ok? <==> (Divisible(g) &&
          forall x, y :: 0 <= x < g.width / 8 && 0 <= y < g.height / 8 ==> Cell(g, t, x, y, h).Ok?)
      ensures var g, t, h := image.Value(), image.palette.transparentIndex, Hints(background, foreground);
        r.Err? && Divisible(g) ==>
          exists x, y :: 0 <= x < g.width / 8 && 0 <= y < g.height / 8 &&
            Cell(g, t, x, y, h) == Err(r.error) &&
            forall x', y' :: 0 <= x' < g.width / 8 && 0 <= y' < g.height / 8 && Before(x', y', x, y) ==>
              Cell(g, t, x', y', h).Ok?
      ensures var g, t, h := image.Value(), image.palette.transparentIndex, Hints(background, foreground);
        r.Ok? ==> var b := r.value;
          && fresh(b.bitmap) && fresh(b.screen.data)
          && b.Valid() && b.width == g.width / 8 && b.height == g.height / 8
          && forall x, y :: 0 <= x < b.width && 0 <= y < b.height ==> b.Encodes(g, t, h, x, y)
    {
      ghost var g := image.Value();
      ghost var t := image.palette.transparentIndex;
      var seed := Hints(background, foreground);
      if image.Width() % 8 != 0 || image.Height() % 8 != 0 {
        return Err(DimensionsNotMultipleOf8);
      }
      var w, h := image.Width() / 8, image.Height() / 8;
      var b := new Bitmap(w, h);
      for sy := 0 to h
        invariant b.Valid() && b.width == w && b.height == h
        invariant fresh(b.bitmap) && fresh(b.screen) && fresh(b.screen.data)
        invariant forall x, y :: 0 <= x < w && 0 <= y < sy ==> b.Encodes(g, t, seed, x, y)
      {
        var row := b.ConvertRow(image, sy, seed);
        assert image.Value() == g;
        if row.Err? {
          return Err(row.error);
        }
      }
      forall x, y | 0 <= x < w && 0 <= y < h
        ensures Cell(g, t, x, y, seed).Ok?
      {
        assert b.Encodes(g, t, seed, x, y);
      }
      return Ok(b);
    }

    /** The inner loop of Bitmap(image, background, foreground): the cells of
        screen row `sy`, left to right, each read with the hints re-seeded and
        stored with set_tile; the first failing cell stops it. */
    method ConvertRow(image: Image, sy: nat, seed: Hints) returns (r: Result<()>)
      requires Valid() && image.Valid() && image.pixels.data != screen.data
      requires var g := image.Value(); Divisible(g) && width == g.width / 8 && height == g.height / 8
      requires sy < height
      requires forall x, y :: 0 <= x < width && 0 <= y < sy ==>
                 Encodes(image.Value(), image.palette.transparentIndex, seed, x, y)
      modifies bitmap, screen.data
      ensures Valid()
      ensures var g, t := image.Value(), image.palette.transparentIndex;
        r.Ok? ==> forall x, y :: 0 <= x < width && 0 <= y <= sy ==> Encodes(g, t, seed, x, y)
      ensures var g, t := image.Value(), image.palette.transparentIndex;
        r.Err? ==> exists x :: (0 <= x < width && Cell(g, t, x, sy, seed) == Err(r.error) &&
          forall x', y' :: 0 <= x' < width && 0 <= y' < height && Before(x', y', x, sy) ==> Cell(g, t, x', y', seed).Ok?)
    {
      ghost var g := image.Value();
      ghost var t := image.palette.transparentIndex;
      for sx := 0 to width
        invariant Valid()
        invariant forall x, y :: 0 <= x < width && 0 <= y < height && Before(x, y, sx, sy) ==> Encodes(g, t, seed, x, y)
      {
        var got := ReadStrips(image, CellOrigins(sx, sy), seed);
        if got.Err? {
          assert Cell(g, t, sx, sy, seed) == Err(got.error);
          forall x', y' | 0 <= x' < width && 0 <= y' < height && Before(x', y', sx, sy)
            ensures Cell(g, t, x', y', seed).Ok?
          {
            assert Encodes(g, t, seed, x', y');
          }
          return Err(got.error);
        }
        var (tile, hints) := got.value;
        CellLength(g, t, sx, sy, seed);
        label Stored:
        SetTile(sx, sy, tile, OrZero(hints.background), OrZero(hints.foreground));
        forall x, y | 0 <= x < width && 0 <= y < height && Before(x, y, sx + 1, sy)
          ensures Encodes(g, t, seed, x, y)
        {
          if (x, y) != (sx, sy) {
            assert Before(x, y, sx, sy);
            assert old@Stored(Encodes(g, t, seed, x, y));
            assert TileAt(x, y) == old@Stored(TileAt(x, y));
            assert ColorAt(x, y) == old@Stored(ColorAt(x, y));
          }
        }
      }
      return Ok(());
    }

    /** Bitmap::save: the plane, width * height * 8 bytes with cell (x, y) at
        offset (y * width + x) * 8, and the screen matrix (the two file
        writes are not modelled). */
    method Save() returns (plane: seq<bv8>, colors: seq<bv8>)
      requires Valid()
      ensures |plane| == width * height * 8
      ensures forall x, y :: 0 <= x < width && 0 <= y < height ==>
                Offset(width, x, y) * 8 + 8 <= |plane| &&
                plane[Offset(width, x, y) * 8..Offset(width, x, y) * 8 + 8] == TileAt(x, y)
      ensures |colors| == width * height
      ensures forall x, y :: 0 <= x < width && 0 <= y < height ==>
                Offset(width, x, y) < |colors| && colors[Offset(width, x, y)] == ColorAt(x, y)
    {
      plane := Flatten(bitmap[..]);
      FlattenSlices(bitmap[..]);
      forall x, y | 0 <= x < width && 0 <= y < height
        ensures Offset(width, x, y) * 8 + 8 <= |plane|
        ensures plane[Offset(width, x, y) * 8..Offset(width, x, y) * 8 + 8] == TileAt(x, y)
      {
        OffsetInBounds(width, height, x, y);
        var k := Offset(width, x, y);
        assert bitmap[..][k] == bitmap[k];
      }
      colors := screen.Save();
    }
  }
}
