/** Reading a raw charset (src/read_raw_charset.cc): 256-byte blocks of
    eight-byte glyphs, after a two-byte load address when the file is a
    .prg, expanded into a picture 32 glyphs wide with set bits in colour 0
    and clear bits in colour 1. The file is a byte sequence and its name a
    string, so fgetc and fread become positions in it. */
module RawCharsets {
  import opened Errors
  import opened Matrices
  import opened Palettes
  import opened Images
  import opened Tiles

  const PrgSuffix: string := ".prg"

  /** The glyphs per picture row. */
  const Columns: nat := 32

  /** The suffix test as written: substr(length - 4) with a name shorter
      than four characters starts past the end of the string, and substr
      throws instead of answering. */
  function IsPrgAsWritten(name: string): (r: Result<bool>)
    ensures r.Err? <==> |name| < 4
    ensures r.Err? ==> r.error == FileNameTooShort
    ensures r.Ok? ==> (r.value <==> IsPrg(name))
  {
    if |name| < 4 then Err(FileNameTooShort) else Ok(name[|name| - 4..] == PrgSuffix)
  }

  /** The suffix test as intended: the name ends in ".prg". */
  predicate IsPrg(name: string) {
    |name| >= 4 && name[|name| - 4..] == PrgSuffix
  }

  lemma IsPrgSuffix(name: string)
    ensures IsPrg(name) <==> exists stem :: name == stem + PrgSuffix
  {
    if IsPrg(name) {
      assert name == name[..|name| - 4] + PrgSuffix;
    }
    if exists stem :: name == stem + PrgSuffix {
      var stem :| name == stem + PrgSuffix;
      assert name[|name| - 4..] == PrgSuffix;
    }
  }

  /** A three-character name makes the as-written test throw, although it
      does not end in ".prg". */
  lemma ShortNameThrows()
    ensures IsPrgAsWritten("prg") == Err(FileNameTooShort)
    ensures !IsPrg("prg")
  {
  }

  /** The bytes that fread sees: for a .prg the two fgetc calls skip the
      load address, or as much of it as the file holds. */
  function CharsetData(name: string, file: seq<bv8>): (data: seq<bv8>)
    ensures |data| <= |file| && data == file[|file| - |data|..]
    ensures |file| - |data| == if IsPrg(name) then (if |file| < 2 then |file| else 2) else 0
  {
    if !IsPrg(name) then file
    else if |file| < 2 then []
    else file[2..]
  }

  /** fread(bitmap, 32 * 8, 8): the number of complete 256-byte blocks,
      at most eight. */
  function Blocks(data: seq<bv8>): (h: nat)
    ensures h <= 8 && h * 256 <= |data|
    ensures h < 8 ==> |data| < h * 256 + 256
  {
    if |data| / 256 < 8 then |data| / 256 else 8
  }

  /** Any count of complete blocks that is at most eight and leaves less
      than a block unread when below eight is the one fread returns. */
  lemma BlocksUnique(data: seq<bv8>, h: nat)
    requires h <= 8 && h * 256 <= |data| && (h < 8 ==> |data| < h * 256 + 256)
    ensures h == Blocks(data)
  {
  }

  /** The colour of pixel (px, py) of a charset picture `height` glyph
      rows tall: 0 where the glyph's bit is set, 1 where it is clear. */
  function Glyph(data: seq<bv8>, height: nat, px: nat, py: nat): bv8
    requires height * 256 <= |data| && px < Columns * 8 && py < height * 8
  {
    TileInBounds(Columns, height, px, py);
    var tile := TileOf(Columns, px, py);
    if MsbBit(data[tile * 8 + py % 8], px % 8) then 0 else 1
  }

  /** Glyph as a total function of the coordinates. */
  ghost function Glyphs(data: seq<bv8>, height: nat): (nat, nat) -> bv8 {
    (px: nat, py: nat) =>
      if height * 256 <= |data| && px < Columns * 8 && py < height * 8
      then Glyph(data, height, px, py) else 0
  }

  /** Row y0 of glyph `tile`, at glyph coordinates (x, y), under Glyphs:
      colour 0 where the row byte's bit is set, colour 1 where it is
      clear. */
  lemma GlyphsOfRow(data: seq<bv8>, height: nat, tile: nat, x: nat, y: nat, y0: nat)
    requires height * 256 <= |data| && tile < Columns * height && y0 < 8
    requires x == tile % Columns && y == tile / Columns
    ensures tile * 8 + y0 < |data|
    ensures var byte := data[tile * 8 + y0];
      forall x0: nat {:trigger MsbBit(byte, x0)} :: x0 < 8 ==>
        Glyphs(data, height)(x * 8 + x0, y * 8 + y0) == if MsbBit(byte, x0) then 0 else 1
  {
    var byte := data[tile * 8 + y0];
    forall x0: nat | x0 < 8
      ensures Glyphs(data, height)(x * 8 + x0, y * 8 + y0) == if MsbBit(byte, x0) then 0 else 1
    {
      OrderOfTile(Columns, height, tile, x0, y0);
      var px, py := x * 8 + x0, y * 8 + y0;
      assert px / 8 == x && px % 8 == x0 && py / 8 == y && py % 8 == y0;
      assert TileOf(Columns, px, py) == tile;
    }
  }

  /** image_read_raw_charset, with the suffix test as intended: no
      complete block is an error, otherwise a 256-pixel wide picture of
      `height` glyph rows in the Colodore palette with every pixel given by
      Glyph. */
  method ReadRawCharset(name: string, file: seq<bv8>) returns (r: Result<Image>)
    ensures r.Err? <==> Blocks(CharsetData(name, file)) == 0
    ensures r.Err? ==> r.error == CantReadCharset
    ensures r.Ok? ==> var data, height := CharsetData(name, file), Blocks(CharsetData(name, file));
      var image := r.value;
      && fresh(image.pixels) && fresh(image.pixels.data) && fresh(image.palette) && image.Valid()
      && image.palette.entries == C64Colodore && image.palette.transparentIndex == DefaultTransparentIndex
      && image.Width() == Columns * 8 && image.Height() == height * 8
      && forall px, py :: 0 <= px < image.Width() && 0 <= py < image.Height() ==>
           image.Value().At(px, py) == Glyph(data, height, px, py)
  {
    var data := CharsetData(name, file);
    var height := Blocks(data);
    if height == 0 {
      return Err(CantReadCharset);
    }
    var palette := new Palette(C64Colodore, DefaultTransparentIndex);
    var image := new Image(Columns * 8, height * 8, palette);
    PaintGlyphs(image, data, height);
    return Ok(image);
  }

  /** The nested loops that set every pixel of a fresh image, glyph by
      glyph, row by row, and from the high bit down. */
  method PaintGlyphs(image: Image, data: seq<bv8>, height: nat)
    requires image.Valid() && height * 256 <= |data|
    requires image.Width() == Columns * 8 && image.Height() == height * 8
    requires image.pixels.data[..] == seq(Columns * 8 * (height * 8), _ => 0)
    modifies image.pixels.data
    ensures image.Valid()
    ensures forall px, py :: 0 <= px < image.Width() && 0 <= py < image.Height() ==>
              image.Value().At(px, py) == Glyph(data, height, px, py)
  {
    ghost var want := Glyphs(data, height);
    PaintStart(image.Value(), Columns, height, want);
    for tile := 0 to Columns * height
      invariant image.Valid() && PaintedUpTo(image.Value(), Columns, height, want, tile * 64)
    {
      var y := tile / Columns;
      var x := tile % Columns;
      for y0 := 0 to 8
        invariant image.Valid() && PaintedUpTo(image.Value(), Columns, height, want, tile * 64 + y0 * 8)
      {
        GlyphsOfRow(data, height, tile, x, y, y0);
        var byte := data[tile * 8 + y0];
        PaintRow(image, Columns, height, tile, x, y, y0, byte, 0, 1, want);
      }
    }
    PaintDone(image.Value(), Columns, height, want);
  }
}
