/** Reading a Printfox picture (src/read_printfox.cc): a tag byte and, for
    'P', two size bytes; a run-length encoded payload of bitmap bytes
    followed by one colour byte per tile; nothing after it. The file is a
    byte sequence, so the stdio calls become positions in it. */
module Printfox {
  import opened Errors
  import opened Matrices
  import opened Palettes
  import opened Images
  import opened Tiles

  /** The escape byte of the run-length encoding. */
  const Escape: bv8 := 0x9B

  /** The picture is `width` x `height` tiles; the colour bytes start at
      `bitmapSize` in the decoded payload. */
  datatype Format = Format(width: nat, height: nat, bitmapSize: nat) {
    /** The number of decoded bytes: the bitmap area and one colour per tile. */
    function PayloadSize(): nat {
      bitmapSize + width * height
    }

    /** The eight bytes of every tile lie inside the bitmap area. */
    predicate Fits() {
      width * height * 8 <= bitmapSize
    }
  }

  /** The header: 'B' is 40 x 25 tiles with an 8192-byte bitmap area (of
      which 8000 bytes hold tiles), 'G' is 80 x 50, 'P' gives the height and
      then the width in its next two bytes; the result carries the position
      where the payload starts. */
  function Header(file: seq<bv8>): (r: Result<(Format, nat)>)
    ensures (|file| == 0 || file[0] !in {0x42, 0x47, 0x50}) ==> r == Err(NotPrintfoxImage)
    ensures r.Ok? ==> r.value.0.Fits() && r.value.1 <= |file|
    ensures |file| > 0 && file[0] == 0x42 ==> r == Ok((Format(40, 25, 8192), 1))
    ensures |file| > 0 && file[0] == 0x47 ==> r == Ok((Format(80, 50, 32000), 1))
    ensures |file| > 0 && file[0] == 0x50 ==>
      if |file| < 3 then r == Err(TruncatedHeader)
      else r == Ok((Format(file[2] as nat, file[1] as nat, file[2] as nat * file[1] as nat * 8), 3))
  {
    if |file| == 0 then Err(NotPrintfoxImage)
    else if file[0] == 0x42 then Ok((Format(40, 25, 8192), 1))
    else if file[0] == 0x47 then Ok((Format(80, 50, 80 * 50 * 8), 1))
    else if file[0] == 0x50 then
      if |file| < 3 then Err(TruncatedHeader)
      else
        var height, width := file[1] as nat, file[2] as nat;
        Ok((Format(width, height, width * height * 8), 3))
    else Err(NotPrintfoxImage)
  }

  function Min(a: nat, b: nat): nat {
    if a < b then a else b
  }

  /** n copies of byte b. */
  function Fill(n: nat, b: bv8): (s: seq<bv8>)
    ensures |s| == n && forall i :: 0 <= i < n ==> s[i] == b
  {
    seq(n, _ => b)
  }

  /** The 16-bit little-endian count of the run whose escape is at `pos`. */
  function Count(input: seq<bv8>, pos: nat): nat
    requires pos + 2 < |input|
  {
    input[pos + 1] as nat + input[pos + 2] as nat * 256
  }

  /** The payload read token by token from position `pos`, `out` being the
      bytes decoded so far, until `total` bytes are decoded: a byte other
      than the escape is itself; an escape, a count and a fill byte are
      `count` fill bytes, cut off at the end of the payload, or a literal
      escape when the count is 0. Running out of input is an error naming
      the number of bytes decoded. */
  function Unpack(input: seq<bv8>, pos: nat, out: seq<bv8>, total: nat): Result<(seq<bv8>, nat)>
    requires |out| <= total
    decreases total - |out|
  {
    if |out| == total then Ok((out, pos))
    else if pos >= |input| then Err(PrematureEndOfFile(|out|, total))
    else if input[pos] != Escape then Unpack(input, pos + 1, out + [input[pos]], total)
    else if pos + 3 >= |input| then Err(PrematureEndOfFile(|out|, total))
    else if Count(input, pos) == 0 then Unpack(input, pos + 4, out + [Escape], total)
    else Unpack(input, pos + 4, out + Fill(Min(Count(input, pos), total - |out|), input[pos + 3]), total)
  }

  /** A decoded payload has exactly `total` bytes, starts with the bytes
      decoded before, and the input is consumed up to at most its end. */
  lemma {:induction false} UnpackLength(input: seq<bv8>, pos: nat, out: seq<bv8>, total: nat)
    requires |out| <= total && pos <= |input| && Unpack(input, pos, out, total).Ok?
    ensures var (bytes, end) := Unpack(input, pos, out, total).value;
      |bytes| == total && bytes[..|out|] == out && pos <= end <= |input|
    decreases total - |out|
  {
    if |out| < total {
      if input[pos] != Escape {
        UnpackLength(input, pos + 1, out + [input[pos]], total);
      } else if Count(input, pos) == 0 {
        UnpackLength(input, pos + 4, out + [Escape], total);
      } else {
        var fill := Fill(Min(Count(input, pos), total - |out|), input[pos + 3]);
        UnpackLength(input, pos + 4, out + fill, total);
      }
      var bytes := Unpack(input, pos, out, total).value.0;
      assert bytes[..|out|] == bytes[..|out| + 1][..|out|];
    }
  }

  /** Input with no escape byte among the next `total - |out|` bytes is
      copied unchanged. */
  lemma {:induction false} UnpackLiterals(input: seq<bv8>, pos: nat, out: seq<bv8>, total: nat)
    requires |out| <= total && pos + (total - |out|) <= |input|
    requires forall i :: pos <= i < pos + (total - |out|) ==> input[i] != Escape
    ensures Unpack(input, pos, out, total) == Ok((out + input[pos..pos + (total - |out|)], pos + (total - |out|)))
    decreases total - |out|
  {
    if |out| < total {
      UnpackLiterals(input, pos + 1, out + [input[pos]], total);
      assert out + [input[pos]] + input[pos + 1..pos + (total - |out|)] == out + input[pos..pos + (total - |out|)];
    } else {
      assert out + input[pos..pos] == out;
    }
  }

  /** A run reaching past the end of the payload fills the rest of it, the
      leftover count is ignored, and decoding stops after the run. */
  lemma RunCutOff(input: seq<bv8>, pos: nat, out: seq<bv8>, total: nat)
    requires |out| < total && pos + 3 < |input| && input[pos] == Escape
    requires Count(input, pos) >= total - |out|
    ensures Unpack(input, pos, out, total) == Ok((out + Fill(total - |out|, input[pos + 3]), pos + 4))
  {
    var rest := out + Fill(total - |out|, input[pos + 3]);
    assert Unpack(input, pos + 4, rest, total) == Ok((rest, pos + 4));
  }

  /** The decoding loop's state: a pending run of `run` fill bytes still to
      come, then tokens from `pos`. */
  function Pending(input: seq<bv8>, pos: nat, out: seq<bv8>, run: nat, fill: bv8, total: nat): Result<(seq<bv8>, nat)>
    requires |out| <= total
  {
    Unpack(input, pos, out + Fill(Min(run, total - |out|), fill), total)
  }

  /** Emitting one byte of a pending run leaves the outcome unchanged. */
  lemma PendingStep(input: seq<bv8>, pos: nat, out: seq<bv8>, run: nat, fill: bv8, total: nat)
    requires |out| < total && run > 0
    ensures Pending(input, pos, out + [fill], run - 1, fill, total) == Pending(input, pos, out, run, fill, total)
  {
    var m := Min(run, total - |out|);
    assert (out + [fill]) + Fill(m - 1, fill) == out + Fill(m, fill);
  }

  lemma PendingNone(input: seq<bv8>, pos: nat, out: seq<bv8>, fill: bv8, total: nat)
    requires |out| <= total
    ensures Pending(input, pos, out, 0, fill, total) == Unpack(input, pos, out, total)
  {
    assert out + Fill(0, fill) == out;
  }

  /** One token of the input at `pos`, seen from Unpack: a literal byte, a
      literal escape, or the start of a run of Count fill bytes. */
  lemma TokenStep(input: seq<bv8>, pos: nat, out: seq<bv8>, total: nat)
    requires |out| < total && pos < |input|
    ensures input[pos] != Escape ==>
      Unpack(input, pos, out, total) == Unpack(input, pos + 1, out + [input[pos]], total)
    ensures input[pos] == Escape && pos + 3 >= |input| ==>
      Unpack(input, pos, out, total) == Err(PrematureEndOfFile(|out|, total))
    ensures input[pos] == Escape && pos + 3 < |input| && Count(input, pos) == 0 ==>
      Unpack(input, pos, out, total) == Unpack(input, pos + 4, out + [Escape], total)
    ensures input[pos] == Escape && pos + 3 < |input| && Count(input, pos) > 0 ==>
      Unpack(input, pos, out, total) == Pending(input, pos + 4, out, Count(input, pos), input[pos + 3], total)
  {
  }

  /** Writing byte `index` of a buffer whose first `index` bytes are `out`. */
  lemma SnocWrite(before: seq<bv8>, after: seq<bv8>, index: nat, out: seq<bv8>, v: bv8)
    requires index < |before| && before[..index] == out && after == before[index := v]
    ensures after[..index + 1] == out + [v]
  {
    assert after[..index + 1] == after[..index] + [v];
  }

  /** The token read when no run is pending: a literal byte, a literal
      escape (count 0), or the start of a run of `run'` fill bytes. The
      outcome of decoding is unchanged, or the input has ended. */
  method ReadToken(input: seq<bv8>, pos: nat, ghost out: seq<bv8>, total: nat)
    returns (ok: bool, byte: bv8, pos': nat, run': nat, fill': bv8)
    requires |out| < total
    ensures ok && run' == 0 ==> Unpack(input, pos', out + [byte], total) == Unpack(input, pos, out, total)
    ensures ok && run' > 0 ==> Pending(input, pos', out, run', fill', total) == Unpack(input, pos, out, total)
    ensures !ok ==> Unpack(input, pos, out, total) == Err(PrematureEndOfFile(|out|, total))
  {
    byte, pos', run', fill' := 0, pos, 0, 0;
    if pos >= |input| {
      return false, byte, pos', run', fill';
    }
    TokenStep(input, pos, out, total);
    byte := input[pos];
    if byte == Escape {
      if pos + 3 >= |input| {
        return false, byte, pos', run', fill';
      }
      run' := Count(input, pos);
      fill' := input[pos + 3];
      pos' := pos + 4;
    } else {
      pos' := pos + 1;
    }
    ok := true;
  }

  /** One iteration of the payload loop before the store: with no run
      pending it reads a token, then it takes the byte from the run if one
      is pending. The outcome of decoding is unchanged, or the input has
      ended. */
  method NextByte(input: seq<bv8>, pos: nat, run: nat, fill: bv8, ghost out: seq<bv8>, total: nat)
    returns (ok: bool, byte: bv8, pos': nat, run': nat, fill': bv8)
    requires |out| < total
    ensures ok ==> Pending(input, pos', out + [byte], run', fill', total) == Pending(input, pos, out, run, fill, total)
    ensures !ok ==> Pending(input, pos, out, run, fill, total) == Err(PrematureEndOfFile(|out|, total))
  {
    ok, byte, pos', run', fill' := true, 0, pos, run, fill;
    if run == 0 {
      PendingNone(input, pos, out, fill, total);
      ok, byte, pos', run', fill' := ReadToken(input, pos, out, total);
      if !ok {
        return;
      }
      if run' == 0 {
        PendingNone(input, pos', out + [byte], fill', total);
      }
    }
    if run' > 0 {
      PendingStep(input, pos', out, run', fill', total);
      byte := fill';
      run' := run' - 1;
    }
  }

  /** The payload loop of image_read_printfox: it decodes one byte per
      iteration into the bitmap buffer, keeping the remaining run length and
      the run byte between iterations, and equals Unpack. */
  method Decode(input: seq<bv8>, start: nat, total: nat) returns (r: Result<(seq<bv8>, nat)>)
    ensures r == Unpack(input, start, [], total)
  {
    var bitmap := new bv8[total];
    var pos: nat := start;
    var runLength: nat := 0;
    var runByte: bv8 := 0;
    ghost var out: seq<bv8> := [];
    PendingNone(input, start, [], runByte, total);
    for index := 0 to total
      invariant |out| == index && bitmap[..index] == out
      invariant Pending(input, pos, out, runLength, runByte, total) == Unpack(input, start, [], total)
    {
      var ok, byte;
      ok, byte, pos, runLength, runByte := NextByte(input, pos, runLength, runByte, out, total);
      if !ok {
        return Err(PrematureEndOfFile(index, total));
      }
      ghost var before := bitmap[..];
      bitmap[index] := byte;
      SnocWrite(before, bitmap[..], index, out, byte);
      out := out + [byte];
    }
    assert out + Fill(Min(runLength, 0), runByte) == out;
    assert bitmap[..] == bitmap[..total];
    return Ok((bitmap[..], pos));
  }

  /** The decoded payload of a file, or why there is none: a bad header,
      input ending before the payload is complete, or bytes left after it. */
  function Payload(file: seq<bv8>): (r: Result<(Format, seq<bv8>)>)
    ensures r.Ok? ==> r.value.0.Fits() && |r.value.1| == r.value.0.PayloadSize()
    ensures Header(file).Err? ==> r == Err(Header(file).error)
  {
    var header :- Header(file);
    var (f, start) := header;
    var decoded :- Unpack(file, start, [], f.PayloadSize());
    var (bytes, end) := decoded;
    UnpackLength(file, start, [], f.PayloadSize());
    if end < |file| then Err(TrailingData(|file| - end))
    else Ok((f, bytes))
  }

  /** Decoding consumes the whole file exactly when the payload is found. */
  lemma PayloadTrailing(file: seq<bv8>)
    requires Header(file).Ok?
    ensures var (f, start) := Header(file).value;
      var u := Unpack(file, start, [], f.PayloadSize());
      && (u.Err? ==> Payload(file) == Err(u.error))
      && (u.Ok? ==> (&& u.value.1 <= |file|
                     && (Payload(file).Ok? <==> u.value.1 == |file|)
                     && (u.value.1 < |file| ==> Payload(file) == Err(TrailingData(|file| - u.value.1)))))
  {
    var (f, start) := Header(file).value;
    if Unpack(file, start, [], f.PayloadSize()).Ok? {
      UnpackLength(file, start, [], f.PayloadSize());
    }
  }

  /** The colour of pixel (px, py): the colour byte of its tile, high nibble
      where the tile's bit for the pixel is set, low nibble where it is
      clear. */
  function Shade(payload: seq<bv8>, f: Format, px: nat, py: nat): bv8
    requires f.Fits() && |payload| == f.PayloadSize()
    requires px < f.width * 8 && py < f.height * 8
  {
    TileInBounds(f.width, f.height, px, py);
    var tile := TileOf(f.width, px, py);
    var color := payload[f.bitmapSize + tile];
    if MsbBit(payload[tile * 8 + py % 8], px % 8) then color >> 4 else color & 0xF
  }

  /** Shade as a total function of the coordinates. */
  ghost function Shades(payload: seq<bv8>, f: Format): (nat, nat) -> bv8 {
    (px: nat, py: nat) =>
      if f.Fits() && |payload| == f.PayloadSize() && px < f.width * 8 && py < f.height * 8
      then Shade(payload, f, px, py) else 0
  }

  lemma ShadesAt(payload: seq<bv8>, f: Format, px: nat, py: nat)
    requires f.Fits() && |payload| == f.PayloadSize()
    requires px < f.width * 8 && py < f.height * 8
    ensures Shades(payload, f)(px, py) == Shade(payload, f, px, py)
  {
  }

  /** The pixels of tile t, seen from the tile: column x0 of row y0 is the
      high nibble of colour byte t where bit 7 - x0 of bitmap byte
      t * 8 + y0 is set, its low nibble where it is clear. */
  lemma ShadeOfTile(payload: seq<bv8>, f: Format, tile: nat, x0: nat, y0: nat)
    requires f.Fits() && |payload| == f.PayloadSize()
    requires tile < f.width * f.height && x0 < 8 && y0 < 8
    ensures f.width > 0 && (tile % f.width) * 8 + x0 < f.width * 8 && (tile / f.width) * 8 + y0 < f.height * 8
    ensures tile * 8 + y0 < f.bitmapSize
    ensures var byte, color := payload[tile * 8 + y0], payload[f.bitmapSize + tile];
      Shade(payload, f, (tile % f.width) * 8 + x0, (tile / f.width) * 8 + y0) ==
        if MsbBit(byte, x0) then color >> 4 else color & 0xF
  {
    OrderOfTile(f.width, f.height, tile, x0, y0);
    var px, py := (tile % f.width) * 8 + x0, (tile / f.width) * 8 + y0;
    assert px / 8 == tile % f.width && px % 8 == x0 && py / 8 == tile / f.width && py % 8 == y0;
    assert TileOf(f.width, px, py) == tile;
  }

  /** Row y0 of tile t, at tile coordinates (x, y), under Shades: the high
      nibble of the tile's colour byte where the row byte's bit is set, the
      low nibble where it is clear. */
  lemma ShadesOfRow(payload: seq<bv8>, f: Format, tile: nat, x: nat, y: nat, y0: nat)
    requires f.Fits() && |payload| == f.PayloadSize()
    requires tile < f.width * f.height && y0 < 8
    requires x == tile % f.width && y == tile / f.width
    ensures tile * 8 + y0 < f.bitmapSize
    ensures var byte, color := payload[tile * 8 + y0], payload[f.bitmapSize + tile];
      forall x0: nat {:trigger MsbBit(byte, x0)} :: x0 < 8 ==>
        Shades(payload, f)(x * 8 + x0, y * 8 + y0) == if MsbBit(byte, x0) then color >> 4 else color & 0xF
  {
    ShadeOfTile(payload, f, tile, 0, y0);
    var byte, color := payload[tile * 8 + y0], payload[f.bitmapSize + tile];
    forall x0: nat | x0 < 8
      ensures Shades(payload, f)(x * 8 + x0, y * 8 + y0) == if MsbBit(byte, x0) then color >> 4 else color & 0xF
    {
      ShadeOfTile(payload, f, tile, x0, y0);
      ShadesAt(payload, f, x * 8 + x0, y * 8 + y0);
    }
  }

  /** image_read_printfox: the header, the payload, the trailing-data check
      and then a (width * 8) x (height * 8) image with every pixel's palette
      index given by Shade. */
  method ReadPrintfox(file: seq<bv8>, palette: Palette) returns (r: Result<Image>)
    ensures r.Ok? <==> Payload(file).Ok?
    ensures r.Err? ==> Payload(file) == Err(r.error)
    ensures r.Ok? ==> var (f, payload) := Payload(file).value;
      var image := r.value;
      && fresh(image.pixels) && fresh(image.pixels.data) && image.Valid() && image.palette == palette
      && image.Width() == f.width * 8 && image.Height() == f.height * 8
      && forall px, py :: 0 <= px < image.Width() && 0 <= py < image.Height() ==>
           image.Value().At(px, py) == Shade(payload, f, px, py)
  {
    var header := Header(file);
    if header.Err? {
      return Err(header.error);
    }
    var (f, start) := header.value;
    var decoded := Decode(file, start, f.PayloadSize());
    PayloadTrailing(file);
    if decoded.Err? {
      return Err(decoded.error);
    }
    var (payload, end) := decoded.value;
    if end != |file| {
      return Err(TrailingData(|file| - end));
    }
    var image := new Image(f.width * 8, f.height * 8, palette);
    Paint(image, payload, f);
    return Ok(image);
  }

  /** The nested loops that set every pixel of a fresh image, tile by tile,
      row by row, and from the high bit down. */
  method Paint(image: Image, payload: seq<bv8>, f: Format)
    requires image.Valid() && f.Fits() && |payload| == f.PayloadSize()
    requires image.Width() == f.width * 8 && image.Height() == f.height * 8
    requires image.pixels.data[..] == seq(f.width * 8 * (f.height * 8), _ => 0)
    modifies image.pixels.data
    ensures image.Valid()
    ensures forall px, py :: 0 <= px < image.Width() && 0 <= py < image.Height() ==>
              image.Value().At(px, py) == Shade(payload, f, px, py)
  {
    ghost var want := Shades(payload, f);
    var width := f.width;
    PaintStart(image.Value(), width, f.height, want);
    for tile := 0 to width * f.height
      invariant image.Valid() && PaintedUpTo(image.Value(), width, f.height, want, tile * 64)
    {
      OrderOfTile(width, f.height, tile, 0, 0);
      var y: nat := tile / width;
      var x: nat := tile % width;
      for y0 := 0 to 8
        invariant image.Valid() && PaintedUpTo(image.Value(), width, f.height, want, tile * 64 + y0 * 8)
      {
        ShadesOfRow(payload, f, tile, x, y, y0);
        var byte := payload[tile * 8 + y0];
        var color := payload[f.bitmapSize + tile];
        PaintRow(image, width, f.height, tile, x, y, y0, byte, color >> 4, color & 0xF, want);
      }
    }
    PaintDone(image.Value(), width, f.height, want);
  }
}
