# gfx-convert core, modelled in Dafny

This project models the core of gfx-convert, a converter from indexed
pictures to Commodore 64 graphics formats:

- the pixel matrix (`Matrix`), the colour palette (`Palette`) and the
  picture (`Image`);
- `Image::get_byte`, which reduces eight pixels of one row to a bitmap byte
  while it resolves the cell's background and foreground colour and fails on
  a third colour;
- the content-addressed character set (`Charset`) with 256 slots;
- the three encoders built on `get_byte`: the C64 hires `Bitmap` (an 8-byte
  tile per cell and a nibble-packed screen), the `TextScreen` (a charset,
  screen codes and a colour matrix) and the `SpriteSheet` (24 x 21 pixel
  sprites in 64-byte slots);
- the two file readers: the Printfox reader, with its tags and 0x9B
  run-length encoding, and the raw charset reader, which expands glyph
  blocks into a picture.

One Dafny module models each source file: `Errors`, `Matrices`, `Palettes`,
`Images`, `Charsets`, `Bitmaps`, `TextScreens`, `SpriteSheets`, `Printfox`
and `RawCharsets`. A further module, `Tiles`, holds the tile-to-pixel loops
that both readers share.

How the C++ maps to Dafny:

- Objects whose fields the C++ updates in place are classes over arrays:
  `Matrix`, `Palette`, `Image`, `Charset`, `Bitmap`, `TextScreen` and
  `SpriteSheet`.
- Each class method is proved against a value-level specification. For
  example, `Grid` is the content of a matrix, `RowByte` is what `get_byte`
  computes, and `AddTile` is what `Charset::add` computes.
- The properties the code promises are lemmas about those specifications.
- Exceptions become the `Error` constructors of a `Result`.
- Files, file names and `save` targets become byte sequences and strings.

When the C++ behaviour itself is wrong, the model keeps that behaviour in a
separate member and uses the corrected behaviour everywhere else (see
Findings).

## Model

| member | source | states |
|---|---|---|
| Matrices.OffsetInBounds | src/Matrix.cc:47 | The row-major offset y*width+x of an in-bounds cell lies inside the width*height buffer, with room for the rest of its row. |
| Matrices.OffsetInjective | src/Matrix.cc:55 | Two in-bounds cells with the same offset are the same cell, so writing one cell cannot touch another. |
| Matrices.OffsetDivMod | src/Matrix.cc:47 | Dividing the offset by width gives back y, and the remainder gives back x. |
| Matrices.UpdateOthers | src/Matrix.cc:55 | Writing offset y*width+x leaves the value of every other in-bounds cell unchanged. |
| Matrices.Matrix.constructor | src/Matrix.cc:40 | A new matrix has w*h cells, all zero. |
| Matrices.Matrix.Get | src/Matrix.cc:42-48 | Succeeds iff x < width and y < height, and then returns the cell's value. Otherwise it fails with InvalidCoordinates(x, y). |
| Matrices.Matrix.Set | src/Matrix.cc:50-56 | Succeeds iff in bounds. On success the buffer is the old one with only index y*width+x replaced, so Get(x, y) then returns v and every other cell keeps its value. On failure nothing changes. |
| Matrices.Matrix.Save | src/Matrix.cc:58-60 | Emits exactly width*height bytes in row-major order. |
| Palettes.IndexGuardAsWritten | src/Palette.cc:72-80 | The range test of `get` and `operator[]` as written admits exactly the indices below the size and the size itself. |
| Palettes.IndexGuardAdmitsSize | src/Palette.cc:72 | The guard as written accepts the index equal to the palette size, which names no entry. |
| Palettes.Palette.OfSize | src/Palette.cc:57 | `size` entries, all 0x000000, and the given transparent index. |
| Palettes.Palette.constructor | src/Palette.cc:59 | Exactly the given entries and transparent index. |
| Palettes.Palette.Lookup | src/Palette.cc:61-69 | Succeeds iff the colour is in the palette, and returns the smallest index holding it. An absent colour fails with InvalidColor. Together with Get's contract, Get(Lookup(c)) == c. |
| Palettes.Palette.Get | src/Palette.cc:71-77 | Corrected guard. Succeeds iff index < size, returning entries[index]. Otherwise it fails with PaletteIndexOutOfRange. |
| Palettes.Palette.SetEntry | src/Palette.cc:79-85 | Corrected guard. `operator[]` used to assign. Only entry `index` changes, and only when index < size. Otherwise the palette is unchanged and PaletteIndexOutOfRange is returned. |
| Images.PackBit | src/Image.cc:55-58 | In the byte built by shifting in one bit per pixel, bit 7-i is the bit emitted for pixel i (MSB first). |
| Images.ResolveLength | src/Image.cc:55 | A row without a clash emits one bit per pixel. |
| Images.ResolveExtends | src/Image.cc:65-71 | A hint goes from unset to set and never changes after that. |
| Images.ResolveScanned | src/Image.cc:59-71 | After a row without a clash, the hints extend the initial ones, and the foreground is adopted only once the background is set. Every non-transparent pixel is one of the hint colours. A bit is set iff its pixel is the foreground (not transparent and not the background). A clear bit's pixel is transparent or the background. |
| Images.ResolveAdopts | src/Image.cc:65-71 | The colours the hints adopt are exactly the row's non-transparent colours that were not already held. |
| Images.ResolveSlots | src/Image.cc:65-71 | Each adopted colour uses up exactly one free hint slot. |
| Images.ResolveCapacity | src/Image.cc:59-74 | A row has no clash iff its new colours fit in the free hint slots. |
| Images.ResolveClashPoint | src/Image.cc:72-74 | A clash is reported at the first pixel that meets two set hints with a third colour. |
| Images.ResolveClashPersists | src/Image.cc:72-74 | Once a prefix clashes, every longer row reports the same clash. |
| Images.RowStep | src/Image.cc:55-76 | One more pixel either keeps an earlier clash, or emits its bit and new hints, or is a new clash at this pixel. |
| Images.ScanStep | src/Image.cc:56-75 | One iteration of the loop: a classified pixel extends the scanned bits, and a third colour makes get_byte fail with ColorClash(x+k, y). |
| Images.RowByteBits | src/Image.cc:49-79 | On success, x is a multiple of 8 and the strip is inside the image. The hints only extend. Bit 7-b is set iff pixel (x+b, y) is the final foreground. A clear bit's pixel is transparent or the final background. |
| Images.RowByteClash | src/Image.cc:72-74 | ColorClash(cx, cy) names an in-bounds pixel of the strip. Both hints were set before it, and its colour is neither hint and not transparent. |
| Images.StripsLength | src/Bitmap.cc:55-57 | Reading n strips with the hints threaded through yields n bytes. |
| Images.StripsSnoc | src/Bitmap.cc:55-57 | Reading one more strip calls get_byte with the hints the earlier strips left. |
| Images.StripsErrPersists | src/Bitmap.cc:55-57 | The first failing get_byte is the failure of the whole sequence. |
| Images.ReadStrips | src/Bitmap.cc:55-57 | The loop of get_byte calls over a list of strip origins computes Strips. |
| Images.Image.constructor | src/Image.cc:39 | A zeroed width x height pixel matrix bound to the palette. |
| Images.Image.Get | src/Image.h:48 | The pixel matrix's bounds-checked read. |
| Images.Image.Set | src/Image.h:49 | The pixel matrix's bounds-checked write. Only pixel (x, y) changes. |
| Images.Image.GetRgb | src/Image.cc:41-43 | Corrected guard. Out of bounds gives InvalidCoordinates. A pixel index not below the palette size gives PaletteIndexOutOfRange. Otherwise it returns the palette entry of the pixel. |
| Images.Image.SetRgb | src/Image.cc:45-47 | The colour lookup comes first: an absent colour gives InvalidColor, then out of bounds gives InvalidCoordinates, and on either error the pixels are unchanged. On success GetRgb(x, y) returns the colour and no other pixel changes. |
| Images.Image.ShiftPixel | src/Image.cc:58-75 | The if-chain for one pixel: it succeeds iff the pixel is classified as a bit, and then it yields the classified hints and the byte with that bit shifted in. |
| Images.Image.GetByte | src/Image.cc:49-79 | The result is exactly RowByte: XNotMultipleOf8, InvalidCoordinates from get, ColorClash, or the byte and the updated hints. |
| Charsets.FlattenSlices | src/Charset.cc:79 | Tile i of the table occupies bytes 8i to 8i+8. |
| Charsets.Unflatten | src/Charset.cc:47-48 | The first 2048 bytes read as 256 tiles of 8 bytes. |
| Charsets.UnflattenRoundTrip | src/Charset.cc:47-48 | Flattening the tiles read from the bytes gives back the first 2048 bytes. |
| Charsets.Empty | src/Charset.cc:42-45 | The empty charset: all-zero table, nchars 0, no keys, which satisfies the invariant Sound. |
| Charsets.AddTile | src/Charset.cc:66-83 | Fails with OutOfCharacters iff the charset is full and the tile is absent. A present tile returns its index and changes nothing. A new tile gets index nchars and is stored there, and nchars grows by one. The earlier data and keys are kept and the invariant is preserved. |
| Charsets.AppendSound | src/Charset.cc:78-82 | Appending a new tile at nchars preserves the invariant: every key's index is below nchars and holds that key. |
| Charsets.IndexOfTile | src/Charset.cc:70-71 | Under the invariant, a key's index holds the key, and two keys share an index iff they are equal. |
| Charsets.AddAllKeys | src/Charset.cc:66-83 | Adding a sequence of tiles to the empty charset makes the keys exactly the distinct tiles, and nchars their number. |
| Charsets.AddAllIndices | src/Charset.cc:66-83 | Repeated add keeps earlier indices and returns for every tile its current index. |
| Charsets.AddAllFirstSeen | src/Charset.cc:78-82 | Starting empty, the first occurrence of a tile gets the number of distinct tiles seen before it, so indices are 0, 1, 2, … in first-seen order. |
| Charsets.AddAllCodes | src/Charset.cc:66-83 | Starting empty, each returned code holds its tile, and two codes are equal iff their tiles are. |
| Charsets.AddAllSound | src/Charset.cc:66-83 | Repeated add preserves the invariant. |
| Charsets.AddAllCapacity | src/Charset.cc:74-76 | Adding a sequence to the empty charset fails iff it has more than 256 distinct tiles. |
| Charsets.ReloadKeep | src/Charset.cc:54-61 | A kept tile enters the map at its first index only, and nchars becomes one past it. |
| Charsets.ReloadSkip | src/Charset.cc:54 | A zero tile after the first zero tile is skipped entirely. |
| Charsets.ReloadDone | src/Charset.cc:52-63 | After the 256 tiles the state satisfies the invariant and the reload property. |
| Charsets.Reindex | src/Charset.cc:50-63 | The reload loop. Every tile maps to its first index. nchars is at least 1 and is one past the last tile that is non-zero or is the first zero tile. |
| Charsets.Charset.constructor | src/Charset.cc:42-45 | The default constructor yields the empty charset. |
| Charsets.Charset.FromBytes | src/Charset.cc:47-64 | The table holds the given bytes, and the state is reloaded as Reindex states. |
| Charsets.Charset.Add | src/Charset.cc:66-83 | Computes AddTile on the charset. On OutOfCharacters the state is unchanged. |
| Charsets.Charset.Find | src/Charset.cc:85-94 | Returns the first index holding the tile, or none iff no used slot holds it. For a found tile, AddTile returns that index and leaves the state unchanged, so Find gives what Add would give. |
| Charsets.Charset.Save | src/Charset.cc:97-99 | Emits (full ? 256 : nchars) * 8 bytes, tile by tile. Unused tiles are zero. |
| Bitmaps.NibblesRoundTrip | src/Bitmap.cc:68 | For colours below 16, low OR (high << 4) gives back low in the low nibble and high in the high nibble. |
| Bitmaps.CellOrigins | src/Bitmap.cc:55-56 | Each cell reads its eight strips at (cx*8, cy*8+r) for r = 0..7. |
| Bitmaps.CellLength | src/Bitmap.cc:53-57 | A converted cell is an 8-byte tile. |
| Bitmaps.CellErrorIsClash | src/Bitmap.cc:44-57 | When the dimensions are multiples of 8, a cell can only fail by a colour clash at one of its own pixels. |
| Bitmaps.RowByteClashOnly | src/Image.cc:49-79 | An aligned strip inside the image can only fail by a clash in that strip. |
| Bitmaps.ResolveBelow16 | src/Image.cc:65-71 | The hints adopt only pixel colours, so over pixels below 16 they stay below 16. |
| Bitmaps.RowByteFaithful | src/Bitmap.cc:56 | A byte read with get_byte agrees with its strip under the final hints of that call. |
| Bitmaps.CellRowsFaithful | src/Bitmap.cc:50-57 | The hints are seeded per cell and carried across its rows, and every byte read agrees with its strip under the hints as they stand after the last row. |
| Bitmaps.CellRoundTrip | src/Bitmap.cc:50-68 | For every non-transparent pixel below 16 of a converted cell, the tile bit picks the high nibble (set) or the low nibble (clear) of the screen byte bg OR (fg << 4), where an unresolved hint counts as 0, and that nibble is the pixel's colour. |
| Bitmaps.Bitmap.constructor | src/Bitmap.cc:40-41 | Zero tiles and zero screen bytes for w x h cells. |
| Bitmaps.Bitmap.SetTile | src/Bitmap.cc:65-69 | Cell (x, y) gets the tile and the screen byte foreground_color OR (background_color << 4). No other cell changes. |
| Bitmaps.Bitmap.FromImage | src/Bitmap.cc:43-62 | Dimensions that are not multiples of 8 give DimensionsNotMultipleOf8. Otherwise it succeeds iff every cell converts, and the error is that of the first failing cell in row order. On success the bitmap has (w/8) x (h/8) cells, each holding its converted tile and the screen byte built from its resolved (bg, fg). |
| Bitmaps.Bitmap.ConvertRow | src/Bitmap.cc:49-60 | One row of cells: on success every cell up to this row is encoded. Otherwise the first failing cell of the row is reported. |
| Bitmaps.Bitmap.Save | src/Bitmap.cc:73-76 | Emits width*height*8 plane bytes, cell by cell, and the width*height screen bytes. |
| TextScreens.FailsAtUnique | src/TextScreen.cc:46-61 | The cell where conversion stops and its error are unique: an unreadable cell and the cell of the 257th distinct tile cannot both be the stop, and no two cells can. |
| TextScreens.FailsBefore | src/Charset.cc:74-76 | After the stop, every later cell has an unreadable cell before it, or more than 256 distinct tiles before it, so conversion cannot stop there. |
| TextScreens.FailureIsFinal | src/TextScreen.cc:46-61 | A conversion that stops at some cell is not one in which every cell reads and at most 256 distinct tiles occur. |
| TextScreens.IndexBytes | src/Charset.cc:66 | The uint8_t that add returns is its index, and distinct indices below 256 stay distinct. |
| TextScreens.SameCode | src/TextScreen.cc:56 | A cell's screen code refers to a charset entry equal to its tile. Two cells share a code iff their tiles are equal. |
| TextScreens.FullStep | src/TextScreen.cc:56 | Add fails on a cell exactly when that cell's tile is the 257th distinct tile. |
| TextScreens.ConvertedStart | src/TextScreen.cc:41 | Before the loop, the empty charset and zeroed matrices satisfy the conversion invariant. |
| TextScreens.AddStep | src/TextScreen.cc:56 | add preserves the invariant, keeps the earlier indices and maps the tile to the returned index. |
| TextScreens.StoredCell | src/TextScreen.cc:56-59 | After storing, the cell shows its code and its colour, which is the discovered foreground if it differs from the background and 0 otherwise. All other cells keep their values. |
| TextScreens.StoreStep | src/TextScreen.cc:56-59 | Storing one cell extends the conversion invariant by that cell. |
| TextScreens.TextScreen.constructor | src/TextScreen.cc:38-39 | An empty charset and two zeroed width x height matrices. |
| TextScreens.TextScreen.FromImage | src/TextScreen.cc:41-62 | Dimensions that are not multiples of 8 give DimensionsNotMultipleOf8. Otherwise each cell is read as its eight strips, with the hints seeded as (Some(background), None) and carried across them. It succeeds iff every cell reads and at most 256 distinct tiles occur, and an error is the one at the cell where conversion stops: the first unreadable cell, or the cell of the 257th distinct tile, whichever comes first. On success the keys are exactly the distinct tiles, nchars is their number, and every cell shows its code and colour. |
| TextScreens.TextScreen.ConvertRow | src/TextScreen.cc:47-60 | One row of cells extends the invariant, or reports the cell where conversion stops. The image is unchanged. |
| TextScreens.TextScreen.StoreCell | src/TextScreen.cc:56-59 | Stores one cell, or fails with OutOfCharacters exactly when its tile is the 257th distinct tile. |
| TextScreens.TextScreen.Set | src/TextScreen.cc:65-69 | The charset takes the result of add. A full charset gives OutOfCharacters with nothing else changed. Out-of-bounds coordinates give InvalidCoordinates with the matrices unchanged. Otherwise only cell (x, y) of each matrix changes: it gets the index and the colour. |
| TextScreens.TextScreen.Save | src/TextScreen.cc:71-75 | Emits the charset bytes, then the screen codes, then the colours. |
| SpriteSheets.RowOriginsAt | src/SpriteSheet.cc:52-54 | Strip r*3+b of a sprite is read at (sx*24 + b*8, sy*21 + r). |
| SpriteSheets.OriginsShape | src/SpriteSheet.cc:52-54 | A sprite reads 63 strips, in row order and three per row. |
| SpriteSheets.SlotInBounds | src/SpriteSheet.cc:51 | Slot (sy*columns+sx)*64 lies inside the rows*columns*64 bytes. |
| SpriteSheets.SlotsDisjoint | src/SpriteSheet.cc:51 | The slots of different sprites do not overlap. |
| SpriteSheets.FillStep | src/SpriteSheet.cc:51-57 | Writing a sprite's 63 bytes into its slot extends the conversion invariant, and byte 63 stays 0. |
| SpriteSheets.StripsFaithful | src/SpriteSheet.cc:52-57 | Every byte read agrees with its strip under the hints after the last strip. |
| SpriteSheets.SpriteRoundTrip | src/SpriteSheet.cc:47-57 | A converted sprite lies inside the image and its background hint is the given one. In each of its pixels a set bit means the final foreground, and a clear bit means transparent or the background. |
| SpriteSheets.ReadStep | src/SpriteSheet.cc:54 | The next get_byte extends the bytes read so far, or its error is the sprite's error. |
| SpriteSheets.SpriteSheet.constructor | src/SpriteSheet.cc:40 | rows*columns*64 zero bytes. |
| SpriteSheets.SpriteSheet.FromImage | src/SpriteSheet.cc:42-62 | Dimensions that are not multiples of 24 x 21 give DimensionsNotMultipleOfSpriteSize. Otherwise each sprite is read as its 63 strips, with the hints seeded as (Some(background), None) and carried across all of them. It succeeds iff every sprite converts, and the error is that of the first failing sprite. On success rows = h/21 and columns = w/24, and each slot holds the sprite's 63 bytes followed by the unwritten 0. The foreground is stored nowhere. |
| SpriteSheets.SpriteSheet.ConvertRow | src/SpriteSheet.cc:48-60 | One row of sprites extends the invariant, or reports the first failing sprite. |
| SpriteSheets.SpriteSheet.ConvertSprite | src/SpriteSheet.cc:49-57 | Its slot's first 63 bytes become the sprite's bytes, or the sprite's error is returned. Nothing outside those bytes changes. |
| SpriteSheets.SpriteSheet.ConvertSpriteRow | src/SpriteSheet.cc:53-56 | One sprite row writes three bytes at offset + r*3 + b, with the hints carried. |
| SpriteSheets.SpriteSheet.ReadStrip | src/SpriteSheet.cc:54 | One get_byte call extends the sprite's reading, or fails with the sprite's error. |
| SpriteSheets.SpriteSheet.Save | src/SpriteSheet.cc:64-66 | Emits exactly rows*columns*64 bytes, slot by slot. |
| Tiles.TileInBounds | src/read_printfox.cc:130-135 | A pixel of a width x height tile picture belongs to a tile below width*height, whose eight bytes are in range. |
| Tiles.OrderOfTile | src/read_printfox.cc:130-139 | Pixel (x0, y0) of tile t is at ((t % width)*8 + x0, (t / width)*8 + y0), inside the picture, and is the set call number t*64 + y0*8 + x0. |
| Tiles.OrderInjective | src/read_printfox.cc:130-141 | The loops set each pixel exactly once. |
| Tiles.PaintStart | src/read_printfox.cc:128 | The fresh picture is all 0, with no pixel painted yet. |
| Tiles.PaintStep | src/read_printfox.cc:138 | Setting the next pixel in loop order paints one more pixel and leaves the others alone. |
| Tiles.PaintPixel | src/read_printfox.cc:138 | One set call of the loops paints the next pixel. |
| Tiles.PaintRow | src/read_printfox.cc:136-140 | The bit loop over one tile row: the pixel under mask 0x80 >> x0 gets `on` when that bit of the row byte is set and `off` otherwise. |
| Tiles.PaintDone | src/read_printfox.cc:130-142 | After width*height*64 set calls every pixel holds its colour. |
| Tiles.MaskSingleBit | src/read_printfox.cc:137-138 | After x0 shifts of 0x80 the mask is the single bit 7-x0 while x0 < 8, and 0 after eight shifts. |
| Tiles.MaskBit | src/read_printfox.cc:137-138 | The mask is nonzero for exactly eight shifts, and `byte & bit` tests bit 7-x0. |
| Printfox.Header | src/read_printfox.cc:48-74 | 'B' gives 40 x 25 with an 8192-byte bitmap area, and 'G' gives 80 x 50. 'P' gives a height byte, then a width byte, and a bitmap area of width*height*8. A 'P' without its two bytes gives TruncatedHeader, and any other tag gives NotPrintfoxImage. The tiles always fit the bitmap area. |
| Printfox.UnpackLength | src/read_printfox.cc:81-119 | A successful decode yields exactly the requested number of bytes, extends what was already decoded and ends inside the input. |
| Printfox.UnpackLiterals | src/read_printfox.cc:81-118 | Input without the escape byte is copied unchanged. |
| Printfox.RunCutOff | src/read_printfox.cc:113-116 | A run longer than the rest of the payload fills it and the leftover count is dropped. |
| Printfox.ReadToken | src/read_printfox.cc:84-111 | Reading the next input token continues the decode as Unpack says, or is PrematureEndOfFile at the current index. |
| Printfox.NextByte | src/read_printfox.cc:82-116 | The next payload byte comes from a pending run or a new token, and decoding continues from it. |
| Printfox.Decode | src/read_printfox.cc:78-119 | The decode loop computes Unpack: the payload and the end position, or PrematureEndOfFile(index, total). |
| Printfox.Payload | src/read_printfox.cc:48-126 | On success the payload has bitmap_size + width*height bytes, with the colours starting at bitmap_size. A header error is the reader's error. |
| Printfox.PayloadTrailing | src/read_printfox.cc:121-126 | After a successful decode, input left over gives TrailingData(count) and no input left over gives success. A decode error is the reader's error. |
| Printfox.ShadeOfTile | src/read_printfox.cc:130-138 | Pixel (x*8+x0, y*8+y0) of tile t is colour[t] >> 4 if bit 7-x0 of bitmap[t*8+y0] is set and colour[t] & 0xF otherwise. |
| Printfox.ShadesOfRow | src/read_printfox.cc:134-140 | The same, for the eight pixels of one tile row. |
| Printfox.ReadPrintfox | src/read_printfox.cc:48-145 | Succeeds iff the header, decode and trailing checks do. On success it gives a fresh (width*8) x (height*8) image in the given palette whose every pixel is its shade. |
| Printfox.Paint | src/read_printfox.cc:130-142 | The tile loops give every pixel its shade. |
| RawCharsets.IsPrgAsWritten | src/read_raw_charset.cc:44 | The suffix test as written fails iff the name has fewer than four characters. Otherwise it answers whether the name ends in ".prg". |
| RawCharsets.IsPrgSuffix | src/read_raw_charset.cc:44 | The corrected test holds iff the name is some stem followed by ".prg". |
| RawCharsets.ShortNameThrows | src/read_raw_charset.cc:44 | The three-character name "prg" makes the test as written fail, although the name does not end in ".prg". |
| RawCharsets.CharsetData | src/read_raw_charset.cc:44-48 | A .prg skips its two-byte load address, or as much of it as the file holds. Other files are read whole. |
| RawCharsets.Blocks | src/read_raw_charset.cc:52-54 | fread counts complete 256-byte blocks, at most eight. |
| RawCharsets.BlocksUnique | src/read_raw_charset.cc:54 | That count is the only one meeting those bounds. |
| RawCharsets.GlyphsOfRow | src/read_raw_charset.cc:62-72 | In row y0 of glyph t, at (t % 32, t / 32), a set bit is colour 0 and a clear bit colour 1. |
| RawCharsets.ReadRawCharset | src/read_raw_charset.cc:44-77 | Fails with CantReadCharset iff no complete block exists. On success it gives a 256 x (height*8) image in the Colodore palette with transparent index 255, whose every pixel is its glyph's inverted bit. |
| RawCharsets.PaintGlyphs | src/read_raw_charset.cc:62-74 | The tile loops give every pixel its glyph colour. |

## Left out

- ZX Spectrum layout: the `Layout` enum exists only in src/Bitmap.h, and src/Bitmap.cc has no Spectrum branch.
- PNG reading and writing, src/main.cc, src/utils.cc, src/read_raw.cc and src/Noter.h are not part of this model. They are library wrappers, the command line and plain I/O plumbing.
- Exception message formatting is not modelled. Every failure is an `Error` constructor, and only a colour clash carries a position.
- File system I/O is not modelled. Files are byte sequences, file names are strings, and `save` returns the bytes it would write.
- The pointer-style `get_byte(x, y, uint8_t, uint8_t*)`, declared at src/Image.h:54 and called by TextScreen and SpriteSheet; its body is not modelled. It is modelled with the optional-reference version (src/Image.cc:49), seeded with hints (Some(background), None). A foreground that stays None reads as "equal to the background".
- `unordered_map` hashing and the native-endian 64-bit key: the charset key is the 8-byte tile itself, with the same equality.
- `shared_ptr` ownership, stack arrays and the global `Palette::c64_colodore` object are not modelled. The Colodore table is a constant sequence.
- Palettes.Palette.Lookup: requires fewer than 256 entries. The uint8_t counter would wrap and never end on a larger palette whose colour is missing.
- Images.Image.SetRgb: requires fewer than 256 entries, because it calls Lookup.
- Printfox.Decode: the clean end-of-file rule. Needing a byte when the input is exhausted is PrematureEndOfFile. The C code tests `feof` before reading, so it can store one 0xFF (EOF cast to uint8_t) first, and it never checks the count and fill bytes for EOF. That artefact is not reproduced.
- Printfox.Header: a 'P' file shorter than three bytes gives TruncatedHeader. The C code would take EOF as the size.
- One-byte run count: the Printfox code sets `doubleLength` for all three tags, so every count is 16-bit. The model follows the code, although the format description gives 'B' files a one-byte count.
- RawCharsets.ReadRawCharset: uses the corrected suffix test IsPrg rather than the throwing one (see Findings).
- Palettes.Palette.Get: uses the corrected guard index < size (see Findings).
- Palettes.Palette.SetEntry: uses the corrected guard index < size (see Findings).
- Images.Image.GetRgb: inherits the corrected guard of Palette.Get, so a pixel index equal to the palette size gives PaletteIndexOutOfRange (see Findings).
- Bitmaps.Bitmap.SetTile: requires an in-range cell. `set_tile` is public (src/Bitmap.h:54), and out of range its unchecked memcpy (src/Bitmap.cc:66) overwrites another cell's tile or writes past the plane before `screen.set` throws. The only caller, the image constructor, always passes an in-range cell, so that path is not modelled.
- The specification functions (Resolve, RowByte, Strips, Unpack, Shade, Glyph) have no rows of their own. The lemmas and methods above state their properties.
- The proof-step lemmas Images.PackSnoc, Images.RowByteOfScan, Images.RowByteOfClash, Images.AdoptStep, Charsets.AddAllKeeps, Charsets.AddAllCodesFrom, Charsets.AddAllLast, Charsets.CodesStep, Tiles.RowPixel, TextScreens.CellResultAt, SpriteSheets.SpriteResultAt, Printfox.TokenStep and Sets.SubsetCardinality have no rows either. Each unfolds one definition or does one step for the proofs of the members above and promises nothing of its own.

## Findings

| source | as written | input that shows it | evidently intended | confidence | as-written member | corrected member |
|---|---|---|---|---|---|---|
| src/Palette.cc:72 | `get` and `operator[]` (also line 80) reject only `index > entries.size()` | a 16-entry palette and index 16: the guard passes and `entries[16]` is read past the end | reject `index >= entries.size()` | not executed | Palettes.IndexGuardAsWritten, Palettes.IndexGuardAdmitsSize | Palettes.Palette.Get, Palettes.Palette.SetEntry, Images.Image.GetRgb |
| src/read_raw_charset.cc:44 | `file_name.substr(file_name.length() - 4)` on a name shorter than four characters starts past the end, and `substr` throws `out_of_range` | the file name "prg" | a short name is simply not a .prg file | not executed | RawCharsets.IsPrgAsWritten, RawCharsets.ShortNameThrows | RawCharsets.IsPrg, RawCharsets.IsPrgSuffix, RawCharsets.ReadRawCharset |
