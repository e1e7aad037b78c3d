/** Sprite sheets (src/SpriteSheet.cc): an image cut into 24 x 21 pixel
    hires sprites, each stored as 21 rows of three get_byte strips in a
    64-byte slot, slots in row-major order. */
module SpriteSheets {
  import opened Errors
  import opened Matrices
  import opened Images
  import opened Bitmaps

  // A sprite is 24 pixels (three 8-pixel strips) wide and 21 rows high;
  // its 21 * 3 = 63 bytes fill a slot of 64, whose last byte is never
  // written. The sizes are written as literals below so that the offsets
  // stay linear arithmetic.

  /** The image dimensions the conversion accepts. */
  predicate SpriteSized(g: Grid) {
    g.width % 24 == 0 && g.height % 21 == 0
  }

  /** The hints every sprite starts from: the background fixed, the
      foreground not yet discovered. */
  function Seed(background: bv8): Hints {
    Hints(Some(background), None)
  }

  /** Top-left pixel of strip b of row r of sprite (sx, sy). */
  function Origin(sx: nat, sy: nat, r: nat, b: nat): (nat, nat) {
    (sx * 24 + b * 8, sy * 21 + r)
  }

  /** The strip origins of the first n rows of sprite (sx, sy) in the order
      the constructor reads them: row by row, three strips per row. */
  function RowOrigins(sx: nat, sy: nat, n: nat): (o: seq<(nat, nat)>)
    ensures |o| == n * 3
  {
    if n == 0 then []
    else RowOrigins(sx, sy, n - 1) + [Origin(sx, sy, n - 1, 0), Origin(sx, sy, n - 1, 1), Origin(sx, sy, n - 1, 2)]
  }

  /** The 63 strip origins of sprite (sx, sy). */
  function Origins(sx: nat, sy: nat): (o: seq<(nat, nat)>)
    ensures |o| == 63
  {
    RowOrigins(sx, sy, 21)
  }

  /** Strip b of row r is read at position r * 3 + b. */
  lemma {:induction false} RowOriginsAt(sx: nat, sy: nat, n: nat, r: nat, b: nat)
    requires r < n && b < 3
    ensures RowOrigins(sx, sy, n)[r * 3 + b] == Origin(sx, sy, r, b)
    decreases n
  {
    var pre := RowOrigins(sx, sy, n - 1);
    if r < n - 1 {
      RowOriginsAt(sx, sy, n - 1, r, b);
      assert RowOrigins(sx, sy, n)[r * 3 + b] == pre[r * 3 + b];
    } else {
      assert RowOrigins(sx, sy, n)[r * 3 + b] == [Origin(sx, sy, r, 0), Origin(sx, sy, r, 1), Origin(sx, sy, r, 2)][b];
    }
  }

  /** Position of strip b of row r among the bytes of a sprite. */
  function Index(r: nat, b: nat): nat {
    r * 3 + b
  }

  /** `o` lists the strip origins of sprite (sx, sy), strip b of row r at
      position Index(r, b). */
  ghost predicate OriginsOf(o: seq<(nat, nat)>, sx: nat, sy: nat) {
    && |o| == 63
    && forall r, b :: 0 <= r < 21 && 0 <= b < 3 ==>
         o[Index(r, b)].0 == sx * 24 + b * 8 && o[Index(r, b)].1 == sy * 21 + r
  }

  lemma OriginAt(o: seq<(nat, nat)>, sx: nat, sy: nat, r: nat, b: nat)
    requires OriginsOf(o, sx, sy) && r < 21 && b < 3
    ensures Index(r, b) < |o| && o[Index(r, b)].0 == sx * 24 + b * 8 && o[Index(r, b)].1 == sy * 21 + r
  {
  }

  lemma OriginsShape(sx: nat, sy: nat)
    ensures OriginsOf(Origins(sx, sy), sx, sy)
  {
    forall r, b | 0 <= r < 21 && 0 <= b < 3
      ensures Origins(sx, sy)[Index(r, b)].0 == sx * 24 + b * 8 && Origins(sx, sy)[Index(r, b)].1 == sy * 21 + r
    {
      RowOriginsAt(sx, sy, 21, r, b);
    }
  }

  /** One sprite of the conversion: its 63 strips read with get_byte, the
      hints seeded from the background and carried across all of them. */
  function Sprite(g: Grid, t: bv8, sx: nat, sy: nat, background: bv8): Result<(seq<bv8>, Hints)>
    requires g.Wf()
  {
    Strips(g, t, Origins(sx, sy), Seed(background))
  }

  /** Sprite (x, y) of image `g` as a function of the coordinates. */
  ghost function SpriteResult(g: Grid, t: bv8, background: bv8): (nat, nat) -> Result<(seq<bv8>, Hints)> {
    (x: nat, y: nat) => if g.Wf() then Sprite(g, t, x, y, background) else Err(InvalidCoordinates(x, y))
  }

  lemma SpriteResultAt(g: Grid, t: bv8, background: bv8, x: nat, y: nat)
    requires g.Wf()
    ensures SpriteResult(g, t, background)(x, y) == Strips(g, t, Origins(x, y), Seed(background))
    ensures Sprite(g, t, x, y, background) == Strips(g, t, Origins(x, y), Seed(background))
  {
  }

  /** Offset of the slot of sprite (x, y) in a sheet `columns` sprites wide. */
  function SlotOffset(columns: nat, x: nat, y: nat): nat {
    Offset(columns, x, y) * 64
  }

  lemma SlotInBounds(columns: nat, rows: nat, x: nat, y: nat)
    requires x < columns && y < rows
    ensures SlotOffset(columns, x, y) + 64 <= rows * columns * 64
  {
    OffsetInBounds(columns, rows, x, y);
    MulMonotone(Offset(columns, x, y) + 1, columns * rows, 64);
  }

  /** Slots of distinct sprites do not overlap. */
  lemma SlotsDisjoint(columns: nat, x: nat, y: nat, x': nat, y': nat)
    requires x < columns && x' < columns && (x, y) != (x', y')
    ensures SlotOffset(columns, x', y') + 64 <= SlotOffset(columns, x, y) ||
            SlotOffset(columns, x, y) + 64 <= SlotOffset(columns, x', y')
  {
    var k, k' := Offset(columns, x, y), Offset(columns, x', y');
    if k == k' {
      OffsetInjective(columns, x, y, x', y');
    } else if k' < k {
      MulMonotone(k' + 1, k, 64);
    } else {
      MulMonotone(k + 1, k', 64);
    }
  }

  /** The slot of sprite (x, y) in bytes `d`: its last byte is 0 and, once
      the sprite is `written`, its first 63 bytes are what `f` reads. */
  ghost predicate SlotHolds(f: (nat, nat) -> Result<(seq<bv8>, Hints)>, columns: nat, rows: nat, d: seq<bv8>,
                            x: nat, y: nat, written: bool)
    requires |d| == rows * columns * 64 && x < columns && y < rows
  {
    SlotInBounds(columns, rows, x, y);
    var o := SlotOffset(columns, x, y);
    && d[o + 63] == 0
    && (written ==> f(x, y).Ok? && d[o..o + 63] == f(x, y).value.0)
  }

  /** The sheet bytes `d` after the constructor has converted every sprite
      before (sx, sy). */
  ghost predicate Filled(f: (nat, nat) -> Result<(seq<bv8>, Hints)>, columns: nat, rows: nat, d: seq<bv8>,
                         sx: nat, sy: nat)
  {
    && |d| == rows * columns * 64
    && forall x, y :: 0 <= x < columns && 0 <= y < rows ==>
         SlotHolds(f, columns, rows, d, x, y, Before(x, y, sx, sy))
  }

  lemma FilledStart(f: (nat, nat) -> Result<(seq<bv8>, Hints)>, columns: nat, rows: nat, d: seq<bv8>)
    requires d == seq(rows * columns * 64, _ => 0)
    ensures Filled(f, columns, rows, d, 0, 0)
  {
    forall x, y | 0 <= x < columns && 0 <= y < rows
      ensures SlotHolds(f, columns, rows, d, x, y, Before(x, y, 0, 0))
    {
      SlotInBounds(columns, rows, x, y);
    }
  }

  lemma FilledRow(f: (nat, nat) -> Result<(seq<bv8>, Hints)>, columns: nat, rows: nat, d: seq<bv8>, sy: nat)
    requires Filled(f, columns, rows, d, columns, sy)
    ensures Filled(f, columns, rows, d, 0, sy + 1)
  {
    var next := sy + 1;
    forall x, y | 0 <= x < columns && 0 <= y < rows
      ensures SlotHolds(f, columns, rows, d, x, y, Before(x, y, 0, next))
    {
      assert Before(x, y, 0, next) == Before(x, y, columns, sy);
    }
  }

  /** Every sprite before (sx, sy) was read without error. */
  lemma FilledRead(f: (nat, nat) -> Result<(seq<bv8>, Hints)>, columns: nat, rows: nat, d: seq<bv8>,
                   sx: nat, sy: nat)
    requires Filled(f, columns, rows, d, sx, sy)
    ensures forall x, y :: 0 <= x < columns && 0 <= y < rows && Before(x, y, sx, sy) ==> f(x, y).Ok?
  {
    forall x, y | 0 <= x < columns && 0 <= y < rows && Before(x, y, sx, sy)
      ensures f(x, y).Ok?
    {
      assert SlotHolds(f, columns, rows, d, x, y, true);
    }
  }

  /** Writing the bytes of sprite (sx, sy) into its slot, and nothing else,
      converts one more sprite. */
  lemma FillStep(f: (nat, nat) -> Result<(seq<bv8>, Hints)>, columns: nat, rows: nat, d: seq<bv8>,
                 sx: nat, sy: nat, d': seq<bv8>)
    requires Filled(f, columns, rows, d, sx, sy) && sx < columns && sy < rows && f(sx, sy).Ok?
    requires |d'| == |d| && SlotOffset(columns, sx, sy) + 63 <= |d|
    requires d'[SlotOffset(columns, sx, sy)..SlotOffset(columns, sx, sy) + 63] == f(sx, sy).value.0
    requires forall i :: 0 <= i < |d| && !(SlotOffset(columns, sx, sy) <= i < SlotOffset(columns, sx, sy) + 63) ==>
               d'[i] == d[i]
    ensures Filled(f, columns, rows, d', sx + 1, sy)
  {
    var o, next := SlotOffset(columns, sx, sy), sx + 1;
    forall x, y | 0 <= x < columns && 0 <= y < rows
      ensures SlotHolds(f, columns, rows, d', x, y, Before(x, y, next, sy))
    {
      SlotInBounds(columns, rows, x, y);
      var o' := SlotOffset(columns, x, y);
      assert SlotHolds(f, columns, rows, d, x, y, Before(x, y, sx, sy));
      if (x, y) == (sx, sy) {
        assert d'[o' + 63] == d[o' + 63];
      } else {
        SlotsDisjoint(columns, sx, sy, x, y);
        assert d'[o'..o' + 63] == d[o'..o' + 63];
        assert d'[o' + 63] == d[o' + 63];
      }
    }
  }

  /** Byte r * 3 + b of a sprite: strip b of row r. */
  function SpriteByte(bytes: seq<bv8>, r: nat, b: nat): bv8
    requires |bytes| == 63 && r < 21 && b < 3
  {
    bytes[Index(r, b)]
  }

  /** Each byte of `bytes` agrees, under hints `h`, with the strip whose
      origin is at the same position of `origins`, and that strip lies
      inside the image. */
  ghost predicate AllFaithful(g: Grid, t: bv8, origins: seq<(nat, nat)>, bytes: seq<bv8>, h: Hints)
    requires g.Wf()
  {
    && |bytes| == |origins|
    && forall k :: 0 <= k < |origins| ==>
         origins[k].0 + 8 <= g.width && origins[k].1 < g.height &&
         StripFaithful(g, t, origins[k].0, origins[k].1, bytes[k], h)
  }

  lemma AllFaithfulSnoc(g: Grid, t: bv8, origins: seq<(nat, nat)>, bytes: seq<bv8>, h: Hints,
                        x: nat, y: nat, byte: bv8, h': Hints)
    requires g.Wf() && AllFaithful(g, t, origins, bytes, h) && Extends(h, h')
    requires x + 8 <= g.width && y < g.height && StripFaithful(g, t, x, y, byte, h')
    ensures AllFaithful(g, t, origins + [(x, y)], bytes + [byte], h')
  {
    var origins', bytes' := origins + [(x, y)], bytes + [byte];
    forall k | 0 <= k < |origins'|
      ensures origins'[k].0 + 8 <= g.width && origins'[k].1 < g.height
      ensures StripFaithful(g, t, origins'[k].0, origins'[k].1, bytes'[k], h')
    {
      if k < |origins| {
        assert origins'[k] == origins[k] && bytes'[k] == bytes[k];
        FaithfulExtends(g, t, origins[k].0, origins[k].1, bytes[k], h, h');
      }
    }
  }

  /** Every strip read with get_byte lies inside the image and agrees with
      its eight pixels under the final hints. */
  lemma {:induction false} StripsFaithful(g: Grid, t: bv8, origins: seq<(nat, nat)>, h: Hints)
    requires g.Wf() && Strips(g, t, origins, h).Ok?
    ensures var (bytes, h') := Strips(g, t, origins, h).value;
      Extends(h, h') && AllFaithful(g, t, origins, bytes, h')
    decreases |origins|
  {
    if origins != [] {
      var pre := origins[..|origins| - 1];
      StripsFaithful(g, t, pre, h);
      var (bytes0, h1) := Strips(g, t, pre, h).value;
      var (x, y) := origins[|origins| - 1];
      RowByteFaithful(g, t, x, y, h1);
      var (byte, h2) := RowByte(g, t, x, y, h1).value;
      assert Strips(g, t, origins, h).value == (bytes0 + [byte], h2);
      assert origins == pre + [(x, y)];
      AllFaithfulSnoc(g, t, pre, bytes0, h1, x, y, byte, h2);
    }
  }

  /** Pixel i of strip b of sprite row r, at (sx * 24 + b * 8 + i,
      sy * 21 + r), lies inside the image; bit i of byte r * 3 + b set means
      the pixel has the foreground colour of `h`, clear means it is
      transparent or has the background colour of `h`. */
  ghost predicate PixelShown(g: Grid, t: bv8, h: Hints, bytes: seq<bv8>, sx: nat, sy: nat, r: nat, b: nat, i: nat)
    requires g.Wf() && |bytes| == 63 && r < 21 && b < 3 && i < 8
  {
    var px, py := sx * 24 + b * 8 + i, sy * 21 + r;
    && g.InBounds(px, py)
    && (MsbBit(SpriteByte(bytes, r, b), i) ==> h.foreground == Some(g.At(px, py)))
    && (!MsbBit(SpriteByte(bytes, r, b), i) ==> g.At(px, py) == t || h.background == Some(g.At(px, py)))
  }

  /** The round trip of a converted sprite: the sprite lies inside the
      image, its 63 bytes show every one of its pixels under the final
      hints, and the background of those hints is still the given one. */
  lemma SpriteRoundTrip(g: Grid, t: bv8, sx: nat, sy: nat, background: bv8)
    requires g.Wf() && Sprite(g, t, sx, sy, background).Ok?
    ensures (sx + 1) * 24 <= g.width && (sy + 1) * 21 <= g.height
    ensures var (bytes, h') := Sprite(g, t, sx, sy, background).value;
      && |bytes| == 63
      && h'.background == Some(background)
      && forall r, b, i :: 0 <= r < 21 && 0 <= b < 3 && 0 <= i < 8 ==> PixelShown(g, t, h', bytes, sx, sy, r, b, i)
  {
    var o := Origins(sx, sy);
    OriginsShape(sx, sy);
    StripsFaithful(g, t, o, Seed(background));
    var (bytes, h') := Sprite(g, t, sx, sy, background).value;
    SpriteFaithful(g, t, o, bytes, h', sx, sy);
  }

  /** The pixel-by-pixel reading of a sprite whose 63 strips are faithful. */
  lemma SpriteFaithful(g: Grid, t: bv8, o: seq<(nat, nat)>, bytes: seq<bv8>, h: Hints, sx: nat, sy: nat)
    requires g.Wf() && OriginsOf(o, sx, sy) && AllFaithful(g, t, o, bytes, h)
    ensures (sx + 1) * 24 <= g.width && (sy + 1) * 21 <= g.height && |bytes| == 63
    ensures forall r, b, i :: 0 <= r < 21 && 0 <= b < 3 && 0 <= i < 8 ==> PixelShown(g, t, h, bytes, sx, sy, r, b, i)
  {
    SpriteStrip(g, t, o, bytes, h, sx, sy, 20, 2);
    forall r, b, i | 0 <= r < 21 && 0 <= b < 3 && 0 <= i < 8
      ensures PixelShown(g, t, h, bytes, sx, sy, r, b, i)
    {
      SpriteStrip(g, t, o, bytes, h, sx, sy, r, b);
    }
  }

  /** Strip b of row r of a faithfully read sprite lies inside the image
      and agrees with its eight pixels. */
  lemma SpriteStrip(g: Grid, t: bv8, o: seq<(nat, nat)>, bytes: seq<bv8>, h: Hints, sx: nat, sy: nat, r: nat, b: nat)
    requires g.Wf() && OriginsOf(o, sx, sy) && AllFaithful(g, t, o, bytes, h) && r < 21 && b < 3
    ensures |bytes| == 63 && sx * 24 + b * 8 + 8 <= g.width && sy * 21 + r < g.height
    ensures StripFaithful(g, t, sx * 24 + b * 8, sy * 21 + r, SpriteByte(bytes, r, b), h)
  {
    var k := Index(r, b);
    OriginAt(o, sx, sy, r, b);
    assert o[k].0 + 8 <= g.width && o[k].1 < g.height && StripFaithful(g, t, o[k].0, o[k].1, bytes[k], h);
  }

  /** One more get_byte call at origin k extends the strips read so far, or
      its error is the error of the whole list. */
  lemma ReadStep(g: Grid, t: bv8, o: seq<(nat, nat)>, h: Hints, k: nat, bytes: seq<bv8>, h1: Hints,
                 x: nat, y: nat, got: Result<(bv8, Hints)>)
    requires g.Wf() && k < |o| && o[k].0 == x && o[k].1 == y
    requires Strips(g, t, o[..k], h) == Ok((bytes, h1))
    requires got == RowByte(g, t, x, y, h1)
    ensures got.Ok? ==> Strips(g, t, o[..k + 1], h) == Ok((bytes + [got.value.0], got.value.1))
    ensures got.Err? ==> Strips(g, t, o, h) == Err(got.error)
  {
    StripsSnoc(g, t, o, h, k);
    if got.Err? {
      StripsErrPersists(g, t, o, h, k + 1);
    }
  }

  /** Writing byte k of a slot whose first k bytes are `bytes` makes its
      first k + 1 bytes `bytes + [v]` and changes no other byte. */
  lemma WriteNext(before: seq<bv8>, after: seq<bv8>, offset: nat, k: nat, bytes: seq<bv8>, v: bv8)
    requires offset + k < |before| && before[offset..offset + k] == bytes
    requires after == before[offset + k := v]
    ensures after[offset..offset + k + 1] == bytes + [v]
    ensures forall i :: 0 <= i < |after| && i != offset + k ==> after[i] == before[i]
  {
    assert after[offset..offset + k + 1] == after[offset..offset + k] + [v];
  }

  /** `read(k)` is the outcome of the first k strips at origins `o`. */
  ghost predicate Reads(read: nat -> Result<(seq<bv8>, Hints)>, g: Grid, t: bv8, o: seq<(nat, nat)>, h: Hints) {
    && g.Wf()
    && forall k {:trigger Strips(g, t, o[..k], h)} :: 0 <= k <= |o| ==> read(k) == Strips(g, t, o[..k], h)
  }

  /** The prefixes of a strip list as a function of their length. */
  ghost function Prefixes(g: Grid, t: bv8, o: seq<(nat, nat)>, h: Hints): nat -> Result<(seq<bv8>, Hints)> {
    (k: nat) => if g.Wf() && k <= |o| then Strips(g, t, o[..k], h) else Err(InvalidCoordinates(k, 0))
  }

  lemma PrefixesRead(g: Grid, t: bv8, o: seq<(nat, nat)>, h: Hints)
    requires g.Wf()
    ensures Reads(Prefixes(g, t, o, h), g, t, o, h)
    ensures Prefixes(g, t, o, h)(|o|) == Strips(g, t, o, h)
  {
    assert o[..|o|] == o;
  }

  lemma ReadsAt(read: nat -> Result<(seq<bv8>, Hints)>, g: Grid, t: bv8, o: seq<(nat, nat)>, h: Hints, k: nat)
    requires Reads(read, g, t, o, h) && k <= |o|
    ensures read(k) == Strips(g, t, o[..k], h)
  {
    assert read(k) == Strips(g, t, o[..k], h);
  }

  lemma ReadsStart(read: nat -> Result<(seq<bv8>, Hints)>, g: Grid, t: bv8, o: seq<(nat, nat)>, h: Hints)
    requires Reads(read, g, t, o, h)
    ensures read(0) == Ok(([], h))
  {
    assert o[..0] == [];
    ReadsAt(read, g, t, o, h, 0);
  }

  class SpriteSheet {
    const rows: nat
    const columns: nat
    /** rows * columns slots of 64 bytes, row-major. */
    const data: array<bv8>

    predicate Valid() {
      data.Length == rows * columns * 64
    }

    /** The 64-byte slot of sprite (x, y). */
    function Slot(x: nat, y: nat): (s: seq<bv8>)
      requires Valid() && x < columns && y < rows
      reads data
      ensures |s| == 64
    {
      SlotInBounds(columns, rows, x, y);
      data[SlotOffset(columns, x, y)..SlotOffset(columns, x, y) + 64]
    }

    /** Slot (x, y) holds the 63 bytes of sprite (x, y) of `g` followed by
        the unwritten 0; the discovered foreground is stored nowhere. */
    ghost predicate Encodes(g: Grid, t: bv8, background: bv8, x: nat, y: nat)
      requires Valid() && g.Wf() && x < columns && y < rows
      reads data
    {
      Sprite(g, t, x, y, background).Ok? &&
      Slot(x, y) == Sprite(g, t, x, y, background).value.0 + [0]
    }

    /** The sheet has converted every sprite before (sx, sy). */
    ghost predicate Progress(f: (nat, nat) -> Result<(seq<bv8>, Hints)>, sx: nat, sy: nat)
      reads data
    {
      Valid() && Filled(f, columns, rows, data[..], sx, sy)
    }

    /** SpriteSheet(r, c): rows * columns * 64 zero bytes. */
    constructor (r: nat, c: nat)
      ensures Valid() && rows == r && columns == c && fresh(data)
      ensures data[..] == seq(r * c * 64, _ => 0)
    {
      rows, columns := r, c;
      data := new bv8[r * c * 64](_ => 0);
    }

    /** SpriteSheet(image, background): every sprite converted in row-major
        order with the hints re-seeded from the background; the dimensions
        must be multiples of 24 and 21, and the first sprite that fails, in
        that order, gives the error. */
    static method FromImage(image: Image, background: bv8) returns (r: Result<SpriteSheet>)
      requires image.Valid()
      ensures !SpriteSized(image.Value()) ==> r == Err(DimensionsNotMultipleOfSpriteSize)
      ensures var g, t := image.Value(), image.palette.transparentIndex;
        r.Ok? <==> (SpriteSized(g) &&
          forall x, y :: 0 <= x < g.width / 24 && 0 <= y < g.height / 21 ==>
            Sprite(g, t, x, y, background).Ok?)
      ensures var g, t := image.Value(), image.palette.transparentIndex;
        r.Err? && SpriteSized(g) ==>
          exists x, y :: 0 <= x < g.width / 24 && 0 <= y < g.height / 21 &&
            Sprite(g, t, x, y, background) == Err(r.error) &&
            forall x', y' :: (0 <= x' < g.width / 24 && 0 <= y' < g.height / 21 &&
              Before(x', y', x, y)) ==> Sprite(g, t, x', y', background).Ok?
      ensures var g, t := image.Value(), image.palette.transparentIndex;
        r.Ok? ==> var s := r.value;
          && fresh(s.data) && s.Valid()
          && s.rows == g.height / 21 && s.columns == g.width / 24
          && forall x, y :: 0 <= x < s.columns && 0 <= y < s.rows ==> s.Encodes(g, t, background, x, y)
    {
      ghost var g := image.Value();
      ghost var t := image.palette.transparentIndex;
      ghost var f := SpriteResult(g, t, background);
      if image.Width() % 24 != 0 || image.Height() % 21 != 0 {
        return Err(DimensionsNotMultipleOfSpriteSize);
      }
      var rows, columns := image.Height() / 21, image.Width() / 24;
      var s := new SpriteSheet(rows, columns);
      FilledStart(f, columns, rows, s.data[..]);
      for sy := 0 to rows
        invariant s.rows == rows && s.columns == columns && fresh(s.data)
        invariant s.Progress(f, 0, sy)
      {
        var row := s.ConvertRow(image, sy, background, f);
        if row.Err? {
          ghost var x :| 0 <= x < columns && f(x, sy) == Err(row.error) &&
            forall x', y' :: 0 <= x' < columns && 0 <= y' < rows && Before(x', y', x, sy) ==> f(x', y').Ok?;
          SpriteResultAt(g, t, background, x, sy);
          forall x', y' | 0 <= x' < columns && 0 <= y' < rows && Before(x', y', x, sy)
            ensures Sprite(g, t, x', y', background).Ok?
          {
            SpriteResultAt(g, t, background, x', y');
          }
          return Err(row.error);
        }
        FilledRow(f, columns, rows, s.data[..], sy);
      }
      FilledRead(f, columns, rows, s.data[..], 0, rows);
      forall x, y | 0 <= x < columns && 0 <= y < rows
        ensures Sprite(g, t, x, y, background).Ok? && s.Encodes(g, t, background, x, y)
      {
        SpriteResultAt(g, t, background, x, y);
        SlotInBounds(columns, rows, x, y);
        var o := SlotOffset(columns, x, y);
        assert SlotHolds(f, columns, rows, s.data[..], x, y, Before(x, y, 0, rows));
        assert s.data[..][o..o + 64] == s.data[..][o..o + 63] + [s.data[..][o + 63]];
      }
      return Ok(s);
    }

    /** The sprites of sheet row `sy`, left to right; the first failing
        sprite stops it. */
    method ConvertRow(image: Image, sy: nat, background: bv8, ghost f: (nat, nat) -> Result<(seq<bv8>, Hints)>)
      returns (r: Result<()>)
      requires image.Valid() && image.pixels.data != data
      requires f == SpriteResult(image.Value(), image.palette.transparentIndex, background)
      requires sy < rows && Progress(f, 0, sy)
      modifies data
      ensures r.Ok? ==> Progress(f, columns, sy)
      ensures r.Err? ==> exists x :: (0 <= x < columns && f(x, sy) == Err(r.error) &&
        forall x', y' :: 0 <= x' < columns && 0 <= y' < rows && Before(x', y', x, sy) ==> f(x', y').Ok?)
    {
      for sx := 0 to columns
        invariant Progress(f, sx, sy)
      {
        ghost var before := data[..];
        SlotInBounds(columns, rows, sx, sy);
        OriginsShape(sx, sy);
        SpriteResultAt(image.Value(), image.palette.transparentIndex, background, sx, sy);
        PrefixesRead(image.Value(), image.palette.transparentIndex, Origins(sx, sy), Seed(background));
        ghost var read := Prefixes(image.Value(), image.palette.transparentIndex, Origins(sx, sy), Seed(background));
        var got := ConvertSprite(image, sx, sy, background, Origins(sx, sy), read);
        if got.Err? {
          FilledRead(f, columns, rows, before, sx, sy);
          return Err(got.error);
        }
        FillStep(f, columns, rows, before, sx, sy, data[..]);
      }
      return Ok(());
    }

    /** The two inner loops of the constructor for sprite (sx, sy): strip b
        of sprite row r is read with get_byte at (sx * 24 + b * 8,
        sy * 21 + r) and written at byte r * 3 + b of the sprite's slot;
        read(k) stands for the first k strips of the sprite. */
    method ConvertSprite(image: Image, sx: nat, sy: nat, background: bv8, ghost o: seq<(nat, nat)>,
                         ghost read: nat -> Result<(seq<bv8>, Hints)>)
      returns (r: Result<()>)
      requires Valid() && image.Valid() && image.pixels.data != data
      requires sx < columns && sy < rows && OriginsOf(o, sx, sy)
      requires Reads(read, image.Value(), image.palette.transparentIndex, o, Seed(background))
      modifies data
      ensures SlotOffset(columns, sx, sy) + 64 <= data.Length
      ensures r.Ok? <==> read(63).Ok?
      ensures r.Err? ==> read(63) == Err(r.error)
      ensures r.Ok? ==> data[SlotOffset(columns, sx, sy)..SlotOffset(columns, sx, sy) + 63] == read(63).value.0
      ensures forall i :: (0 <= i < data.Length &&
                !(SlotOffset(columns, sx, sy) <= i < SlotOffset(columns, sx, sy) + 63)) ==>
                data[i] == old(data[i])
    {
      ghost var g := image.Value();
      ghost var t := image.palette.transparentIndex;
      SlotInBounds(columns, rows, sx, sy);
      var offset := (sy * columns + sx) * 64;
      assert offset == SlotOffset(columns, sx, sy);
      var seed := Seed(background);
      var hints := seed;
      ghost var bytes: seq<bv8> := [];
      ReadsStart(read, g, t, o, seed);
      for spriteY := 0 to 21
        invariant image.Value() == g
        invariant read(spriteY * 3) == Ok((bytes, hints))
        invariant data[offset..offset + spriteY * 3] == bytes
        invariant forall i :: 0 <= i < data.Length && !(offset <= i < offset + spriteY * 3) ==> data[i] == old(data[i])
      {
        var row;
        row, bytes := ConvertSpriteRow(image, sx, sy, spriteY, offset, hints, g, t, o, seed, read, bytes);
        if row.Err? {
          return Err(row.error);
        }
        hints := row.value;
      }
      return Ok(());
    }

    /** The innermost loop, for row `spriteY` of sprite (sx, sy): its three
        strips, each read with get_byte with the hints carried along and
        written to its byte of the slot at `offset`. */
    method ConvertSpriteRow(image: Image, sx: nat, sy: nat, spriteY: nat, offset: nat, hints: Hints,
                            ghost g: Grid, ghost t: bv8, ghost o: seq<(nat, nat)>, ghost seed: Hints,
                            ghost read: nat -> Result<(seq<bv8>, Hints)>, ghost bytes: seq<bv8>)
      returns (r: Result<Hints>, ghost bytes': seq<bv8>)
      requires image.Valid() && image.pixels.data != data
      requires g == image.Value() && t == image.palette.transparentIndex
      requires OriginsOf(o, sx, sy) && Reads(read, g, t, o, seed)
      requires spriteY < 21 && offset + 63 <= data.Length
      requires read(spriteY * 3) == Ok((bytes, hints))
      requires data[offset..offset + spriteY * 3] == bytes
      modifies data
      ensures image.Value() == g
      ensures r.Err? ==> read(63) == Err(r.error)
      ensures r.Ok? ==> read(spriteY * 3 + 3) == Ok((bytes', r.value))
      ensures r.Ok? ==> data[offset..offset + spriteY * 3 + 3] == bytes'
      ensures forall i :: (0 <= i < data.Length && !(offset + spriteY * 3 <= i < offset + spriteY * 3 + 3)) ==>
                data[i] == old(data[i])
    {
      var h := hints;
      bytes' := bytes;
      for byteX := 0 to 3
        invariant image.Value() == g
        invariant read(spriteY * 3 + byteX) == Ok((bytes', h))
        invariant data[offset..offset + spriteY * 3 + byteX] == bytes'
        invariant forall i :: 0 <= i < data.Length && !(offset + spriteY * 3 <= i < offset + spriteY * 3 + byteX) ==>
                    data[i] == old(data[i])
      {
        var k := Index(spriteY, byteX);
        var got := ReadStrip(image, sx, sy, spriteY, byteX, h, g, t, o, seed, read, bytes');
        if got.Err? {
          return Err(got.error), bytes';
        }
        ghost var before := data[..];
        data[offset + k] := got.value.0;
        WriteNext(before, data[..], offset, k, bytes', got.value.0);
        bytes' := bytes' + [got.value.0];
        h := got.value.1;
      }
      return Ok(h), bytes';
    }

    /** One get_byte call: strip byteX of row spriteY of sprite (sx, sy),
        read with the hints left by the strips before it. */
    static method ReadStrip(image: Image, sx: nat, sy: nat, spriteY: nat, byteX: nat, h: Hints,
                            ghost g: Grid, ghost t: bv8, ghost o: seq<(nat, nat)>, ghost seed: Hints,
                            ghost read: nat -> Result<(seq<bv8>, Hints)>, ghost bytes: seq<bv8>)
      returns (got: Result<(bv8, Hints)>)
      requires image.Valid() && g == image.Value() && t == image.palette.transparentIndex
      requires OriginsOf(o, sx, sy) && Reads(read, g, t, o, seed) && spriteY < 21 && byteX < 3
      requires read(Index(spriteY, byteX)) == Ok((bytes, h))
      ensures got.Ok? ==> read(Index(spriteY, byteX) + 1) == Ok((bytes + [got.value.0], got.value.1))
      ensures got.Err? ==> read(63) == Err(got.error)
    {
      var k := Index(spriteY, byteX);
      var x, y := sx * 24 + byteX * 8, sy * 21 + spriteY;
      OriginAt(o, sx, sy, spriteY, byteX);
      got := image.GetByte(x, y, h);
      ReadsAt(read, g, t, o, seed, k);
      ReadsAt(read, g, t, o, seed, k + 1);
      ReadsAt(read, g, t, o, seed, 63);
      assert o[..63] == o;
      ReadStep(g, t, o, seed, k, bytes, h, x, y, got);
    }

    /** SpriteSheet::save: all rows * columns * 64 bytes (the file write is
        not modelled). */
    method Save() returns (bytes: seq<bv8>)
      requires Valid()
      ensures |bytes| == rows * columns * 64
      ensures forall x, y :: 0 <= x < columns && 0 <= y < rows ==>
                SlotOffset(columns, x, y) + 64 <= |bytes| &&
                bytes[SlotOffset(columns, x, y)..SlotOffset(columns, x, y) + 64] == Slot(x, y)
    {
      bytes := data[..];
      forall x, y | 0 <= x < columns && 0 <= y < rows
        ensures SlotOffset(columns, x, y) + 64 <= |bytes|
        ensures bytes[SlotOffset(columns, x, y)..SlotOffset(columns, x, y) + 64] == Slot(x, y)
      {
        SlotInBounds(columns, rows, x, y);
      }
    }
  }
}
