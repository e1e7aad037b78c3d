/** C64 text screens (src/TextScreen.cc): every 8x8 cell of an image becomes
    a character of a charset built on the fly, a screen matrix holds each
    cell's character index and a colour matrix its foreground colour. */
module TextScreens {
  import opened Errors
  import opened Matrices
  import opened Images
  import opened Charsets
  import opened Bitmaps
  import Sets

  /** The hints every cell starts from: the background colour given, and no
      foreground yet. The C++ code keeps the foreground in a byte that starts
      out equal to the background; "still equal" is "not found" here. */
  function Seed(background: bv8): Hints {
    Hints(Some(background), None)
  }

  /** The colour byte a converted cell leaves in the colour matrix: its
      foreground when get_byte found one that differs from the background,
      otherwise the 0 the matrix was created with. */
  function ColorOf(h: Hints, background: bv8): bv8 {
    if h.foreground.Some? && h.foreground.value != background then h.foreground.value else 0
  }

  /** What reading each cell of `g` gives: its tile and final hints, or the
      error of get_byte. */
  ghost function CellResult(g: Grid, t: bv8, bg: bv8): (nat, nat) -> Result<(Tile, Hints)> {
    (x: nat, y: nat) => if g.Wf() then Cell(g, t, x, y, Seed(bg)) else Err(InvalidCoordinates(x, y))
  }

  lemma CellResultAt(g: Grid, t: bv8, bg: bv8, x: nat, y: nat)
    requires g.Wf()
    ensures CellResult(g, t, bg)(x, y) == Strips(g, t, CellOrigins(x, y), Seed(bg))
  {
  }

  /** The distinct tiles of the readable cells before (sx, sy) in row-major
      order, among w x h cells read as `f` says. */
  ghost function TilesOf(f: (nat, nat) -> Result<(Tile, Hints)>, w: nat, h: nat, sx: nat, sy: nat): set<Tile> {
    set x, y | 0 <= x < w && 0 <= y < h && Before(x, y, sx, sy) && f(x, y).Ok? :: f(x, y).value.0
  }

  /** Every one of the w x h cells reads without error. */
  ghost predicate AllRead(f: (nat, nat) -> Result<(Tile, Hints)>, w: nat, h: nat) {
    forall x, y :: 0 <= x < w && 0 <= y < h ==> f(x, y).Ok?
  }

  /** Conversion stops at cell (x, y) with error e: every earlier cell was
      read, at most 256 distinct tiles came before it, and either reading
      this one fails with e, or its tile is the 257th distinct tile and e is
      OutOfCharacters. */
  ghost predicate FailsAt(f: (nat, nat) -> Result<(Tile, Hints)>, w: nat, h: nat, x: nat, y: nat, e: Error) {
    && x < w && y < h
    && (forall x', y' :: 0 <= x' < w && 0 <= y' < h && Before(x', y', x, y) ==> f(x', y').Ok?)
    && |TilesOf(f, w, h, x, y)| <= Capacity
    && (|| f(x, y) == Err(e)
        || (&& f(x, y).Ok? && e == OutOfCharacters
            && |TilesOf(f, w, h, x, y)| == Capacity
            && |TilesOf(f, w, h, x + 1, y)| == Capacity + 1))
  }

  /** Taking one more readable cell adds its tile and nothing else. */
  lemma TilesOfStep(f: (nat, nat) -> Result<(Tile, Hints)>, w: nat, h: nat, sx: nat, sy: nat)
    requires sx < w && sy < h && f(sx, sy).Ok?
    ensures TilesOf(f, w, h, sx + 1, sy) == TilesOf(f, w, h, sx, sy) + {f(sx, sy).value.0}
  {
    assert f(sx, sy).value.0 in TilesOf(f, w, h, sx + 1, sy);
  }

  /** The end of a row is the start of the next one. */
  lemma TilesOfRow(f: (nat, nat) -> Result<(Tile, Hints)>, w: nat, h: nat, sy: nat)
    ensures TilesOf(f, w, h, w, sy) == TilesOf(f, w, h, 0, sy + 1)
  {
  }

  /** The tiles before a cell are among the tiles of all cells. */
  lemma TilesOfAll(f: (nat, nat) -> Result<(Tile, Hints)>, w: nat, h: nat, sx: nat, sy: nat)
    requires sy < h
    ensures TilesOf(f, w, h, sx, sy) <= TilesOf(f, w, h, 0, h)
  {
  }

  /** A conversion that stops at some cell covers neither of the conditions
      under which it succeeds: some cell is unreadable, or the cells have
      more than 256 distinct tiles. */
  lemma FailureIsFinal(f: (nat, nat) -> Result<(Tile, Hints)>, w: nat, h: nat, x: nat, y: nat, e: Error)
    requires FailsAt(f, w, h, x, y, e)
    ensures !(AllRead(f, w, h) && |TilesOf(f, w, h, 0, h)| <= Capacity)
  {
    if f(x, y).Ok? {
      TilesOfAll(f, w, h, x + 1, y);
      Sets.SubsetCardinality(TilesOf(f, w, h, x + 1, y), TilesOf(f, w, h, 0, h));
    }
  }

  /** The cell where conversion stops, and its error, are unique. */
  lemma FailsAtUnique(f: (nat, nat) -> Result<(Tile, Hints)>, w: nat, h: nat,
                      x: nat, y: nat, e: Error, x': nat, y': nat, e': Error)
    requires FailsAt(f, w, h, x, y, e) && FailsAt(f, w, h, x', y', e')
    ensures x == x' && y == y' && e == e'
  {
    if Before(x, y, x', y') {
      FailsBefore(f, w, h, x, y, e, x', y');
    } else if Before(x', y', x, y) {
      FailsBefore(f, w, h, x', y', e', x, y);
    }
  }

  /** No cell after the one where conversion stops meets FailsAt: either
      the stop cell is unreadable, or the later cell has more than 256
      distinct tiles before it. */
  lemma FailsBefore(f: (nat, nat) -> Result<(Tile, Hints)>, w: nat, h: nat,
                    x: nat, y: nat, e: Error, x': nat, y': nat)
    requires FailsAt(f, w, h, x, y, e) && Before(x, y, x', y') && x' < w && y' < h
    ensures !(forall x'', y'' :: 0 <= x'' < w && 0 <= y'' < h && Before(x'', y'', x', y') ==> f(x'', y'').Ok?)
            || |TilesOf(f, w, h, x', y')| > Capacity
  {
    if f(x, y).Ok? {
      assert TilesOf(f, w, h, x + 1, y) <= TilesOf(f, w, h, x', y');
      Sets.SubsetCardinality(TilesOf(f, w, h, x + 1, y), TilesOf(f, w, h, x', y'));
    }
  }

  /** An index below 256 keeps its value as a byte. */
  lemma IndexByte(i: nat)
    requires i < 256
    ensures (i as bv8) as int == i
  {
    assert i % 256 == i;
  }

  /** Indices below 256 stay distinct as bytes. */
  lemma IndexBytes(i: nat, j: nat)
    requires i < 256 && j < 256
    ensures (i as bv8) as int == i
    ensures i as bv8 == j as bv8 <==> i == j
  {
    IndexByte(i);
    IndexByte(j);
  }

  /** Cell (x, y) of the screen and colour grids holds the conversion of a
      cell read as `f` says: its tile is a character of charset state `c`,
      the screen holds that character's index and the colour grid the
      cell's foreground. */
  ghost predicate Shows(f: (nat, nat) -> Result<(Tile, Hints)>, bg: bv8, c: Contents, screen: Grid, colors: Grid,
                        x: nat, y: nat)
    requires screen.Wf() && colors.Wf() && screen.InBounds(x, y) && colors.InBounds(x, y)
  {
    && f(x, y).Ok?
    && f(x, y).value.0 in c.chars
    && c.chars[f(x, y).value.0] < 256
    && screen.At(x, y) == c.chars[f(x, y).value.0] as bv8
    && colors.At(x, y) == ColorOf(f(x, y).value.1, bg)
  }

  /** The character a converted cell refers to is its tile, and two
      converted cells get the same character index exactly when their tiles
      are equal. */
  lemma SameCode(f: (nat, nat) -> Result<(Tile, Hints)>, bg: bv8, c: Contents, screen: Grid, colors: Grid,
                 x: nat, y: nat, x': nat, y': nat)
    requires Sound(c) && screen.Wf() && colors.Wf()
    requires screen.InBounds(x, y) && colors.InBounds(x, y) && screen.InBounds(x', y') && colors.InBounds(x', y')
    requires Shows(f, bg, c, screen, colors, x, y) && Shows(f, bg, c, screen, colors, x', y')
    ensures screen.At(x, y) as int < c.nchars
    ensures c.data[screen.At(x, y)] == f(x, y).value.0
    ensures screen.At(x, y) == screen.At(x', y') <==> f(x, y).value.0 == f(x', y').value.0
  {
    var tile, tile' := f(x, y).value.0, f(x', y').value.0;
    IndexOfTile(c, tile, tile');
    IndexBytes(c.chars[tile], c.chars[tile']);
  }

  /** The state after the cells before (sx, sy) of w x h cells were
      converted: the charset holds exactly their distinct tiles, each once,
      every converted cell holds its tile and colour, and every other cell
      still has the colour 0 it was created with. */
  ghost predicate Converted(f: (nat, nat) -> Result<(Tile, Hints)>, bg: bv8, c: Contents, screen: Grid, colors: Grid,
                            w: nat, h: nat, sx: nat, sy: nat)
  {
    && screen.Wf() && screen.width == w && screen.height == h
    && colors.Wf() && colors.width == w && colors.height == h
    && Sound(c)
    && c.chars.Keys == TilesOf(f, w, h, sx, sy)
    && |c.chars.Keys| == c.nchars
    && (forall x, y :: 0 <= x < w && 0 <= y < h ==>
          if Before(x, y, sx, sy) then Shows(f, bg, c, screen, colors, x, y) else colors.At(x, y) == 0)
  }

  /** A full charset that does not hold the tile of cell (sx, sy) makes it
      the 257th distinct tile. */
  lemma FullStep(f: (nat, nat) -> Result<(Tile, Hints)>, bg: bv8, c: Contents, screen: Grid, colors: Grid,
                 w: nat, h: nat, sx: nat, sy: nat)
    requires Converted(f, bg, c, screen, colors, w, h, sx, sy) && sx < w && sy < h && f(sx, sy).Ok?
    requires |f(sx, sy).value.0| == 8 && AddTile(c, f(sx, sy).value.0).Err?
    ensures |TilesOf(f, w, h, sx, sy)| == Capacity
    ensures |TilesOf(f, w, h, sx + 1, sy)| == Capacity + 1
  {
    var tile := f(sx, sy).value.0;
    assert tile !in c.chars by {
      if tile in c.chars {
        IndexOfTile(c, tile, tile);
      }
    }
    TilesOfStep(f, w, h, sx, sy);
  }

  /** A converted cell whose screen and colour bytes are unchanged still
      shows its tile once the charset keeps the indices of its characters. */
  lemma ShowsKept(f: (nat, nat) -> Result<(Tile, Hints)>, bg: bv8, c: Contents, screen: Grid, colors: Grid,
                  c': Contents, screen': Grid, colors': Grid, x: nat, y: nat)
    requires screen.Wf() && colors.Wf() && screen.InBounds(x, y) && colors.InBounds(x, y)
    requires screen'.Wf() && colors'.Wf() && screen'.InBounds(x, y) && colors'.InBounds(x, y)
    requires Shows(f, bg, c, screen, colors, x, y)
    requires screen'.At(x, y) == screen.At(x, y) && colors'.At(x, y) == colors.At(x, y)
    requires forall t :: t in c.chars ==> t in c'.chars && c'.chars[t] == c.chars[t]
    ensures Shows(f, bg, c', screen', colors', x, y)
  {
  }

  /** What Converted says about one cell. */
  lemma ConvertedAt(f: (nat, nat) -> Result<(Tile, Hints)>, bg: bv8, c: Contents, screen: Grid, colors: Grid,
                    w: nat, h: nat, sx: nat, sy: nat, x: nat, y: nat)
    requires Converted(f, bg, c, screen, colors, w, h, sx, sy) && x < w && y < h
    ensures if Before(x, y, sx, sy) then Shows(f, bg, c, screen, colors, x, y) else colors.At(x, y) == 0
  {
  }

  /** Before the first cell nothing is converted: the charset is empty and
      every colour is 0. */
  lemma ConvertedStart(f: (nat, nat) -> Result<(Tile, Hints)>, bg: bv8, screen: Grid, colors: Grid, w: nat, h: nat)
    requires screen.Wf() && screen.width == w && screen.height == h
    requires colors.Wf() && colors.width == w && colors.height == h
    requires colors.cells == seq(w * h, _ => 0)
    ensures Converted(f, bg, Empty(), screen, colors, w, h, 0, 0)
  {
    assert TilesOf(f, w, h, 0, 0) == {};
    forall x, y | 0 <= x < w && 0 <= y < h
      ensures colors.At(x, y) == 0
    {
      OffsetInBounds(w, h, x, y);
    }
  }

  /** What add does to a charset that holds each of its characters once:
      the tile becomes a key, old keys keep their indices, and the charset
      still holds each character once. */
  lemma AddStep(c: Contents, tile: Tile, index: nat, c': Contents)
    requires Sound(c) && |tile| == 8 && |c.chars.Keys| == c.nchars
    requires AddTile(c, tile) == Ok((index, c'))
    ensures Sound(c') && index < 256
    ensures c'.chars.Keys == c.chars.Keys + {tile} && |c'.chars.Keys| == c'.nchars
    ensures tile in c'.chars && c'.chars[tile] == index
    ensures forall t :: t in c.chars ==> t in c'.chars && c'.chars[t] == c.chars[t]
  {
    if tile !in c.chars {
      assert index >= c.nchars;
    }
  }

  /** Writing one cell of a grid changes that cell and no other. */
  lemma WriteStep(g: Grid, x: nat, y: nat, v: bv8, g': Grid)
    requires g.Wf() && g.InBounds(x, y) && Offset(g.width, x, y) < |g.cells|
    requires g' == Grid(g.width, g.height, g.cells[Offset(g.width, x, y) := v])
    ensures g'.Wf() && g'.At(x, y) == v
    ensures forall x', y' :: 0 <= x' < g.width && 0 <= y' < g.height && (x', y') != (x, y) ==> g'.At(x', y') == g.At(x', y')
  {
    UpdateOthers(g.width, g.height, g.cells, x, y, v);
  }

  /** Converting cell (sx, sy): with the charset after adding its tile,
      the index stored on the screen and, when a foreground different from
      the background was found, that foreground stored as the cell's colour,
      one more cell is converted. */
  lemma StoreStep(f: (nat, nat) -> Result<(Tile, Hints)>, bg: bv8, c: Contents, screen: Grid, colors: Grid,
                  w: nat, h: nat, sx: nat, sy: nat, index: nat, c': Contents, screen': Grid, colors': Grid)
    requires Converted(f, bg, c, screen, colors, w, h, sx, sy) && sx < w && sy < h && f(sx, sy).Ok?
    requires var tile := f(sx, sy).value.0;
      && Sound(c') && index < 256
      && c'.chars.Keys == c.chars.Keys + {tile} && |c'.chars.Keys| == c'.nchars
      && tile in c'.chars && c'.chars[tile] == index
      && forall t :: t in c.chars ==> t in c'.chars && c'.chars[t] == c.chars[t]
    requires Offset(w, sx, sy) < |screen.cells| && Offset(w, sx, sy) < |colors.cells|
    requires screen' == Grid(w, h, screen.cells[Offset(w, sx, sy) := index as bv8])
    requires var fg := f(sx, sy).value.1.foreground;
      colors' == if fg.Some? && fg.value != bg then Grid(w, h, colors.cells[Offset(w, sx, sy) := fg.value]) else colors
    ensures Converted(f, bg, c', screen', colors', w, h, sx + 1, sy)
  {
    TilesOfStep(f, w, h, sx, sy);
    ConvertedAt(f, bg, c, screen, colors, w, h, sx, sy, sx, sy);
    StoredCell(f, bg, screen, colors, w, h, sx, sy, index, c', screen', colors');
    StoreOthers(f, bg, c, screen, colors, w, h, sx, sy, c', screen', colors');
  }

  /** The cell just stored shows its tile and colour; no other cell changed. */
  lemma StoredCell(f: (nat, nat) -> Result<(Tile, Hints)>, bg: bv8, screen: Grid, colors: Grid,
                   w: nat, h: nat, sx: nat, sy: nat, index: nat, c': Contents, screen': Grid, colors': Grid)
    requires screen.Wf() && screen.width == w && screen.height == h
    requires colors.Wf() && colors.width == w && colors.height == h
    requires sx < w && sy < h && f(sx, sy).Ok? && index < 256 && colors.At(sx, sy) == 0
    requires var tile := f(sx, sy).value.0; tile in c'.chars && c'.chars[tile] == index
    requires Offset(w, sx, sy) < |screen.cells| && Offset(w, sx, sy) < |colors.cells|
    requires screen' == Grid(w, h, screen.cells[Offset(w, sx, sy) := index as bv8])
    requires var fg := f(sx, sy).value.1.foreground;
      colors' == if fg.Some? && fg.value != bg then Grid(w, h, colors.cells[Offset(w, sx, sy) := fg.value]) else colors
    ensures screen'.Wf() && screen'.width == w && screen'.height == h
    ensures colors'.Wf() && colors'.width == w && colors'.height == h
    ensures Shows(f, bg, c', screen', colors', sx, sy)
    ensures forall x, y :: 0 <= x < w && 0 <= y < h && (x, y) != (sx, sy) ==>
      screen'.At(x, y) == screen.At(x, y) && colors'.At(x, y) == colors.At(x, y)
  {
    var hints := f(sx, sy).value.1;
    WriteStep(screen, sx, sy, index as bv8, screen');
    if hints.foreground.Some? && hints.foreground.value != bg {
      WriteStep(colors, sx, sy, hints.foreground.value, colors');
    }
  }

  /** Converting cell (sx, sy) keeps every other cell as Converted says. */
  lemma StoreOthers(f: (nat, nat) -> Result<(Tile, Hints)>, bg: bv8, c: Contents, screen: Grid, colors: Grid,
                    w: nat, h: nat, sx: nat, sy: nat, c': Contents, screen': Grid, colors': Grid)
    requires Converted(f, bg, c, screen, colors, w, h, sx, sy) && sx < w && sy < h
    requires screen'.Wf() && screen'.width == w && screen'.height == h
    requires colors'.Wf() && colors'.width == w && colors'.height == h
    requires Shows(f, bg, c', screen', colors', sx, sy)
    requires forall x, y :: 0 <= x < w && 0 <= y < h && (x, y) != (sx, sy) ==>
      screen'.At(x, y) == screen.At(x, y) && colors'.At(x, y) == colors.At(x, y)
    requires forall t :: t in c.chars ==> t in c'.chars && c'.chars[t] == c.chars[t]
    ensures forall x, y :: 0 <= x < w && 0 <= y < h ==>
      if Before(x, y, sx + 1, sy) then Shows(f, bg, c', screen', colors', x, y) else colors'.At(x, y) == 0
  {
    forall x, y | 0 <= x < w && 0 <= y < h
      ensures if Before(x, y, sx + 1, sy) then Shows(f, bg, c', screen', colors', x, y) else colors'.At(x, y) == 0
    {
      if (x, y) != (sx, sy) {
        ConvertedAt(f, bg, c, screen, colors, w, h, sx, sy, x, y);
        if Before(x, y, sx, sy) {
          ShowsKept(f, bg, c, screen, colors, c', screen', colors', x, y);
        }
      }
    }
  }

  class TextScreen {
    /** Width and height in cells. */
    const width: nat
    const height: nat
    const charset: Charset
    /** The character index of each cell. */
    const screen: Matrix
    /** The colour of each cell. */
    const colors: Matrix

    /** Both matrices have the text screen's dimensions. */
    predicate Shaped() {
      && screen.Valid() && screen.width == width && screen.height == height
      && colors.Valid() && colors.width == width && colors.height == height
    }

    predicate Valid()
      reads charset, charset.data
    {
      && charset.Valid() && Shaped()
      && screen.data != colors.data
      && charset.data as object != screen.data && charset.data as object != colors.data
    }

    /** The character index stored for cell (x, y). */
    function CodeAt(x: nat, y: nat): bv8
      requires Shaped() && x < width && y < height
      reads screen.data
    {
      screen.Value().At(x, y)
    }

    /** The colour stored for cell (x, y). */
    function ColorAt(x: nat, y: nat): bv8
      requires Shaped() && x < width && y < height
      reads colors.data
    {
      colors.Value().At(x, y)
    }

    /** Cell (x, y) holds the conversion of a cell read as `f` says. */
    ghost predicate Encodes(f: (nat, nat) -> Result<(Tile, Hints)>, bg: bv8, x: nat, y: nat)
      requires Shaped() && x < width && y < height
      reads charset, charset.data, screen.data, colors.data
    {
      Shows(f, bg, charset.State(), screen.Value(), colors.Value(), x, y)
    }

    /** TextScreen(width, height): an empty charset and two zeroed matrices. */
    constructor (w: nat, h: nat)
      ensures Valid() && width == w && height == h
      ensures fresh(charset) && fresh(charset.data) && fresh(screen.data) && fresh(colors.data)
      ensures charset.State() == Empty()
      ensures screen.data[..] == seq(w * h, _ => 0) && colors.data[..] == seq(w * h, _ => 0)
      ensures forall x, y :: 0 <= x < w && 0 <= y < h ==> CodeAt(x, y) == 0 && ColorAt(x, y) == 0
    {
      width, height := w, h;
      charset := new Charset();
      screen := new Matrix(w, h);
      colors := new Matrix(w, h);
    }

    /** The state after the cells before (sx, sy) were converted. */
    ghost predicate Progress(f: (nat, nat) -> Result<(Tile, Hints)>, bg: bv8, sx: nat, sy: nat)
      reads charset, charset.data, screen.data, colors.data
    {
      && Valid()
      && Converted(f, bg, charset.State(), screen.Value(), colors.Value(), width, height, sx, sy)
    }

    /** Ending a row is starting the next one. */
    lemma ProgressRow(f: (nat, nat) -> Result<(Tile, Hints)>, bg: bv8, sy: nat)
      requires Progress(f, bg, width, sy)
      ensures Progress(f, bg, 0, sy + 1)
    {
      TilesOfRow(f, width, height, sy);
      forall x, y | 0 <= x < width && 0 <= y < height
        ensures Before(x, y, width, sy) == Before(x, y, 0, sy + 1)
      {
      }
    }

    /** The cells before (sx, sy) were all read. */
    lemma EarlierRead(f: (nat, nat) -> Result<(Tile, Hints)>, bg: bv8, sx: nat, sy: nat)
      requires Progress(f, bg, sx, sy)
      ensures forall x, y :: 0 <= x < width && 0 <= y < height && Before(x, y, sx, sy) ==> f(x, y).Ok?
    {
      forall x, y | 0 <= x < width && 0 <= y < height && Before(x, y, sx, sy)
        ensures f(x, y).Ok?
      {
        assert Encodes(f, bg, x, y);
      }
    }

    /** TextScreen(image, background_color): every cell converted in
        row-major order with the hints re-seeded from the background, its
        tile added to the charset, the index stored on the screen and a
        foreground found in the cell stored as its colour. The dimensions
        must be multiples of 8; the conversion fails at the first cell that
        cannot be read or whose tile would be the 257th distinct one, so it
        succeeds exactly when every cell reads and there are at most 256
        distinct tiles. */
    static method FromImage(image: Image, background: bv8) returns (r: Result<TextScreen>)
      requires image.Valid()
      ensures var g := image.Value();
        !Divisible(g) ==> r == Err(DimensionsNotMultipleOf8)
      ensures var g := image.Value();
        var f, w, h := CellResult(g, image.palette.transparentIndex, background), g.width / 8, g.height / 8;
        r.Ok? <==> (Divisible(g) && AllRead(f, w, h) && |TilesOf(f, w, h, 0, h)| <= Capacity)
      ensures var g := image.Value();
        var f, w, h := CellResult(g, image.palette.transparentIndex, background), g.width / 8, g.height / 8;
        r.Err? && Divisible(g) ==> exists x, y :: FailsAt(f, w, h, x, y, r.error)
      ensures var g := image.Value();
        var f, w, h := CellResult(g, image.palette.transparentIndex, background), g.width / 8, g.height / 8;
        r.Ok? ==> var s := r.value;
          && fresh(s.charset) && fresh(s.charset.data) && fresh(s.screen.data) && fresh(s.colors.data)
          && s.Valid() && s.width == w && s.height == h
          && s.charset.chars.Keys == TilesOf(f, w, h, 0, h)
          && s.charset.nchars == |TilesOf(f, w, h, 0, h)|
          && forall x, y :: 0 <= x < w && 0 <= y < h ==> s.Encodes(f, background, x, y)
    {
      ghost var f := CellResult(image.Value(), image.palette.transparentIndex, background);
      if image.Width() % 8 != 0 || image.Height() % 8 != 0 {
        return Err(DimensionsNotMultipleOf8);
      }
      var w, h := image.Width() / 8, image.Height() / 8;
      var s := new TextScreen(w, h);
      ConvertedStart(f, background, s.screen.Value(), s.colors.Value(), w, h);
      for sy := 0 to h
        invariant s.width == w && s.height == h
        invariant fresh(s.charset) && fresh(s.charset.data) && fresh(s.screen.data) && fresh(s.colors.data)
        invariant s.Progress(f, background, 0, sy)
      {
        var row := s.ConvertRow(image, sy, background, f);
        if row.Err? {
          ghost var x :| FailsAt(f, w, h, x, sy, row.error);
          FailureIsFinal(f, w, h, x, sy, row.error);
          return Err(row.error);
        }
        s.ProgressRow(f, background, sy);
      }
      forall x, y | 0 <= x < w && 0 <= y < h
        ensures f(x, y).Ok?
      {
        assert s.Encodes(f, background, x, y);
      }
      return Ok(s);
    }

    /** The inner loop of TextScreen(image, background_color): the cells of
        screen row `sy`, left to right, each read with the hints re-seeded
        and stored with StoreCell; the first failing cell stops it. */
    method ConvertRow(image: Image, sy: nat, background: bv8, ghost f: (nat, nat) -> Result<(Tile, Hints)>)
      returns (r: Result<()>)
      requires image.Valid()
      requires image.pixels.data != screen.data && image.pixels.data != colors.data
      requires image.pixels.data as object != charset.data
      requires f == CellResult(image.Value(), image.palette.transparentIndex, background)
      requires var g := image.Value(); width == g.width / 8 && height == g.height / 8
      requires sy < height && Progress(f, background, 0, sy)
      modifies charset, charset.data, screen.data, colors.data
      ensures image.Value() == old(image.Value())
      ensures r.Ok? ==> Progress(f, background, width, sy)
      ensures r.Err? ==> exists x :: FailsAt(f, width, height, x, sy, r.error)
    {
      for sx := 0 to width
        invariant Progress(f, background, sx, sy)
        invariant image.Value() == old(image.Value())
      {
        var got := ReadStrips(image, CellOrigins(sx, sy), Seed(background));
        CellResultAt(image.Value(), image.palette.transparentIndex, background, sx, sy);
        EarlierRead(f, background, sx, sy);
        if got.Err? {
          assert FailsAt(f, width, height, sx, sy, got.error);
          return Err(got.error);
        }
        CellLength(image.Value(), image.palette.transparentIndex, sx, sy, Seed(background));
        var (tile, hints) := got.value;
        var stored := StoreCell(sx, sy, tile, hints, background, f);
        if stored.Err? {
          assert FailsAt(f, width, height, sx, sy, stored.error);
          return stored;
        }
      }
      return Ok(());
    }

    /** The body of the inner loop of TextScreen(image, background_color)
        once the cell's tile is read: charset.add, the index stored on the
        screen, and the colour stored when a foreground was found. A full
        charset fails when the tile is new, and then the tile is the 257th
        distinct one. */
    method StoreCell(sx: nat, sy: nat, tile: Tile, hints: Hints, background: bv8,
                     ghost f: (nat, nat) -> Result<(Tile, Hints)>)
      returns (r: Result<()>)
      requires sx < width && sy < height && Progress(f, background, sx, sy)
      requires f(sx, sy) == Ok((tile, hints)) && |tile| == 8
      modifies charset, charset.data, screen.data, colors.data
      ensures r.Ok? ==> Progress(f, background, sx + 1, sy)
      ensures r.Err? ==>
        && r.error == OutOfCharacters
        && |TilesOf(f, width, height, sx, sy)| == Capacity
        && |TilesOf(f, width, height, sx + 1, sy)| == Capacity + 1
    {
      ghost var c, codes, colorGrid := charset.State(), screen.Value(), colors.Value();
      var code := charset.Add(tile);
      if code.Err? {
        FullStep(f, background, c, codes, colorGrid, width, height, sx, sy);
        return Err(code.error);
      }
      ghost var c' := charset.State();
      AddStep(c, tile, code.value, c');
      var stored := screen.Set(sx, sy, code.value as bv8);
      ghost var codes' := screen.Value();
      assert charset.State() == c' && colors.Value() == colorGrid;
      var foreground := if hints.foreground.Some? then hints.foreground.value else background;
      if foreground != background {
        stored := colors.Set(sx, sy, foreground);
        assert charset.State() == c' && screen.Value() == codes';
      }
      StoreStep(f, background, c, codes, colorGrid, width, height, sx, sy, code.value, c', codes', colors.Value());
      return Ok(());
    }

    /** TextScreen::set: adds the tile to the charset, then stores its index
        in cell (x, y) and `color` as the cell's colour. A full charset fails
        before anything changes; coordinates outside the screen fail after
        the tile was added. */
    method Set(x: nat, y: nat, tile: Tile, color: bv8) returns (r: Result<()>)
      requires Valid() && |tile| == 8
      modifies charset, charset.data, screen.data, colors.data
      ensures Valid()
      ensures AddTile(old(charset.State()), tile).Err? ==>
        r == Err(OutOfCharacters) && charset.State() == old(charset.State()) &&
        screen.data[..] == old(screen.data[..]) && colors.data[..] == old(colors.data[..])
      ensures AddTile(old(charset.State()), tile).Ok? ==>
        var (index, c) := AddTile(old(charset.State()), tile).value;
        && charset.State() == c
        && (r.Ok? <==> x < width && y < height)
        && (r.Err? ==>
              r.error == InvalidCoordinates(x, y) &&
              screen.data[..] == old(screen.data[..]) && colors.data[..] == old(colors.data[..]))
        && (r.Ok? ==> index < 256 && CodeAt(x, y) == index as bv8 && ColorAt(x, y) == color)
        && (r.Ok? ==>
              && Offset(width, x, y) < screen.data.Length && Offset(width, x, y) < colors.data.Length
              && screen.data[..] == old(screen.data[..])[Offset(width, x, y) := index as bv8]
              && colors.data[..] == old(colors.data[..])[Offset(width, x, y) := color])
    {
      ghost var codes, colorGrid := screen.data[..], colors.data[..];
      var code := charset.Add(tile);
      if code.Err? {
        return Err(code.error);
      }
      ghost var c := charset.State();
      assert screen.data[..] == codes && colors.data[..] == colorGrid;
      var stored := screen.Set(x, y, code.value as bv8);
      if stored.Err? {
        return stored;
      }
      ghost var codes' := screen.data[..];
      assert charset.State() == c && colors.data[..] == colorGrid;
      stored := colors.Set(x, y, color);
      assert charset.State() == c && screen.data[..] == codes';
      return Ok(());
    }

    /** TextScreen::save: the charset (all 256 characters when `full`), the
        screen matrix and the colour matrix (the file writes are not
        modelled). */
    method Save(full: bool) returns (chars: seq<bv8>, codes: seq<bv8>, colorBytes: seq<bv8>)
      requires Valid()
      ensures |chars| == (if full then Capacity else charset.nchars) * 8
      ensures forall i :: 0 <= i < (if full then Capacity else charset.nchars) ==>
                chars[i * 8..i * 8 + 8] == charset.data[i]
      ensures |codes| == width * height && |colorBytes| == width * height
      ensures forall x, y :: 0 <= x < width && 0 <= y < height ==>
                Offset(width, x, y) < |codes| && codes[Offset(width, x, y)] == CodeAt(x, y) &&
                colorBytes[Offset(width, x, y)] == ColorAt(x, y)
    {
      chars := charset.Save(full);
      codes := screen.Save();
      colorBytes := colors.Save();
    }
  }
}
