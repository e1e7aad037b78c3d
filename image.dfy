/** Images (src/Image.cc): a pixel matrix of palette indices bound to a
    palette, and `get_byte`, which reduces eight pixels of one row to a
    one-bit-per-pixel byte while resolving the cell's two colours. */
module Images {
  import opened Errors
  import opened Matrices
  import opened Palettes
  import Sets

  /** The two optional colour hints that get_byte reads and updates; the
      caller threads them through all the rows of one cell. */
  datatype Hints = Hints(background: Option<bv8>, foreground: Option<bv8>)

  /** Hint slots still unset, i.e. colours a cell may still adopt. */
  function FreeSlots(h: Hints): nat {
    (if h.background.None? then 1 else 0) + (if h.foreground.None? then 1 else 0)
  }

  predicate Holds(h: Hints, c: bv8) {
    h.background == Some(c) || h.foreground == Some(c)
  }

  /** `later` keeps every hint `earlier` had set. */
  predicate Extends(earlier: Hints, later: Hints) {
    && (earlier.background.Some? ==> later.background == earlier.background)
    && (earlier.foreground.Some? ==> later.foreground == earlier.foreground)
  }

  /** The colours `later` holds in slots that `earlier` left unset. */
  function Adopted(earlier: Hints, later: Hints): set<bv8> {
    (if earlier.background.None? && later.background.Some? then {later.background.value} else {}) +
    (if earlier.foreground.None? && later.foreground.Some? then {later.foreground.value} else {})
  }

  /** A pixel drawn in the foreground colour of hints `h`. */
  predicate IsForeground(p: bv8, transparent: bv8, h: Hints) {
    p != transparent && h.background != Some(p) && h.foreground == Some(p)
  }

  /** The non-transparent colours among `ps` that the hints `h` do not hold. */
  function NewColors(ps: seq<bv8>, transparent: bv8, h: Hints): set<bv8> {
    set i | 0 <= i < |ps| && ps[i] != transparent && !Holds(h, ps[i]) :: ps[i]
  }

  /** What get_byte does with one pixel: the bit it emits and the hints
      afterwards, or a third colour when both hints are taken. */
  datatype Step = Bit(on: bool, hints: Hints) | ThirdColor

  function Classify(p: bv8, transparent: bv8, h: Hints): Step {
    if p == transparent || h.background == Some(p) then Bit(false, h)
    else if h.foreground == Some(p) then Bit(true, h)
    else if h.background.None? then Bit(false, h.(background := Some(p)))
    else if h.foreground.None? then Bit(true, h.(foreground := Some(p)))
    else ThirdColor
  }

  /** Classifying pixels left to right: the bits and the final hints, or the
      position of the first pixel of a third colour. */
  datatype Scan = Scanned(bits: seq<bool>, hints: Hints) | ClashAt(index: nat)

  function Resolve(ps: seq<bv8>, transparent: bv8, h: Hints): Scan
    decreases |ps|
  {
    if ps == [] then Scanned([], h)
    else
      match Resolve(ps[..|ps| - 1], transparent, h)
      case ClashAt(k) => ClashAt(k)
      case Scanned(bits, h1) =>
        match Classify(ps[|ps| - 1], transparent, h1)
        case ThirdColor => ClashAt(|ps| - 1)
        case Bit(b, h2) => Scanned(bits + [b], h2)
  }

  /** Bits packed most significant first, as get_byte shifts them into a
      byte (bits shifted past the top are lost). */
  function Pack(bits: seq<bool>): bv8
    decreases |bits|
  {
    if bits == [] then 0
    else (Pack(bits[..|bits| - 1]) << 1) | (if bits[|bits| - 1] then 1 else 0)
  }

  lemma PackSnoc(bits: seq<bool>, b: bool)
    ensures Pack(bits + [b]) == (Pack(bits) << 1) | (if b then 1 else 0)
  {
    assert (bits + [b])[..|bits|] == bits;
  }

  /** Bit `i` of `b`, counting from the least significant bit. */
  predicate BitAt(b: bv8, i: nat)
    requires i < 8
  {
    (b >> i) & 1 == 1
  }

  lemma ShiftInBit(v: bv8, c: bool, k: nat)
    requires k < 8
    ensures BitAt((v << 1) | (if c then 1 else 0), 0) == c
    ensures k < 7 ==> BitAt((v << 1) | (if c then 1 else 0), k + 1) == BitAt(v, k)
  {
  }

  /** Pack puts the i-th of n bits at position n - 1 - i. */
  lemma {:induction false} PackBit(bits: seq<bool>, i: nat)
    requires |bits| <= 8 && i < |bits|
    ensures BitAt(Pack(bits), |bits| - 1 - i) == bits[i]
  {
    var n := |bits|;
    var init := bits[..n - 1];
    ShiftInBit(Pack(init), bits[n - 1], if i < n - 1 then n - 2 - i else 0);
    if i < n - 1 {
      PackBit(init, i);
    }
  }

  lemma {:induction false} ResolveLength(ps: seq<bv8>, t: bv8, h: Hints)
    requires Resolve(ps, t, h).Scanned?
    ensures |Resolve(ps, t, h).bits| == |ps|
    decreases |ps|
  {
    if ps != [] {
      ResolveLength(ps[..|ps| - 1], t, h);
    }
  }

  /** Hints only ever go from unset to set. */
  lemma {:induction false} ResolveExtends(ps: seq<bv8>, t: bv8, h: Hints)
    requires Resolve(ps, t, h).Scanned?
    ensures Extends(h, Resolve(ps, t, h).hints)
    decreases |ps|
  {
    if ps != [] {
      ResolveExtends(ps[..|ps| - 1], t, h);
    }
  }

  /** What a successful scan guarantees about bits and hints: one bit per
      pixel; hints only ever go from unset to set; a foreground is adopted
      only once a background is known; every visible pixel ends up held by
      a hint; a 1-bit exactly for the pixels of the final foreground, and
      every other visible pixel in the final background. */
  lemma {:induction false} ResolveScanned(ps: seq<bv8>, t: bv8, h: Hints)
    requires Resolve(ps, t, h).Scanned?
    ensures var s := Resolve(ps, t, h);
      && |s.bits| == |ps|
      && Extends(h, s.hints)
      && (h.foreground.None? && s.hints.foreground.Some? ==> s.hints.background.Some?)
      && (forall i :: 0 <= i < |ps| ==> ps[i] != t ==> Holds(s.hints, ps[i]))
      && (forall i :: 0 <= i < |ps| ==> (s.bits[i] <==> IsForeground(ps[i], t, s.hints)))
      && (forall i :: 0 <= i < |ps| ==> !s.bits[i] ==> ps[i] == t || s.hints.background == Some(ps[i]))
    decreases |ps|
  {
    if ps != [] {
      var n := |ps|;
      var init := ps[..n - 1];
      var p := ps[n - 1];
      ResolveScanned(init, t, h);
      var s0 := Resolve(init, t, h);
      var h0 := s0.hints;
      var s := Resolve(ps, t, h);
      assert forall i :: 0 <= i < n - 1 ==> ps[i] == init[i];
      assert s.bits == s0.bits + [s.bits[n - 1]];
      if p == t || h0.background == Some(p) || h0.foreground == Some(p) {
        assert s.hints == h0;
      } else if h0.background.None? {
        assert s.hints == h0.(background := Some(p));
      } else {
        assert s.hints == h0.(foreground := Some(p));
      }
    }
  }

  lemma NewColorsSnoc(ps: seq<bv8>, p: bv8, t: bv8, h: Hints)
    ensures NewColors(ps + [p], t, h) ==
            NewColors(ps, t, h) + (if p != t && !Holds(h, p) then {p} else {})
  {
    var qs := ps + [p];
    assert forall i :: 0 <= i < |ps| ==> qs[i] == ps[i];
    assert qs[|ps|] == p;
  }

  /** What a successful scan adopts: exactly the colours of the pixels that
      the initial hints did not hold, one free slot for each. */
  lemma {:induction false} ResolveAdopts(ps: seq<bv8>, t: bv8, h: Hints)
    requires Resolve(ps, t, h).Scanned?
    ensures var s := Resolve(ps, t, h);
      && NewColors(ps, t, h) == Adopted(h, s.hints)
    decreases |ps|
  {
    if ps != [] {
      var n := |ps|;
      var init := ps[..n - 1];
      var p := ps[n - 1];
      ResolveAdopts(init, t, h);
      ResolveExtends(init, t, h);
      var h0 := Resolve(init, t, h).hints;
      var h1 := Resolve(ps, t, h).hints;
      assert ps == init + [p];
      NewColorsSnoc(init, p, t, h);
      var added := if p != t && !Holds(h, p) then {p} else {};
      if p == t || h0.background == Some(p) || h0.foreground == Some(p) {
        assert h1 == h0;
        assert added <= Adopted(h, h0);
      } else if h0.background.None? {
        assert h1 == h0.(background := Some(p));
        assert added == {p};
        assert Adopted(h, h1) == Adopted(h, h0) + {p};
      } else {
        assert h1 == h0.(foreground := Some(p));
        assert added == {p};
        assert Adopted(h, h1) == Adopted(h, h0) + {p};
      }
    }
  }

  /** Each adopted colour uses up one free hint slot. */
  lemma {:induction false} ResolveSlots(ps: seq<bv8>, t: bv8, h: Hints)
    requires Resolve(ps, t, h).Scanned?
    ensures |Adopted(h, Resolve(ps, t, h).hints)| + FreeSlots(Resolve(ps, t, h).hints) == FreeSlots(h)
    decreases |ps|
  {
    if ps != [] {
      var init := ps[..|ps| - 1];
      ResolveSlots(init, t, h);
      ResolveExtends(init, t, h);
      var h0 := Resolve(init, t, h).hints;
      var step := Classify(ps[|ps| - 1], t, h0);
      assert step.Bit? && Resolve(ps, t, h).hints == step.hints;
      AdoptStep(h, h0, ps[|ps| - 1], t);
    }
  }

  /** One pixel of ResolveSlots: classifying it either leaves the hints alone
      or fills one free slot with a colour not adopted before. */
  lemma AdoptStep(h: Hints, h0: Hints, p: bv8, t: bv8)
    requires Extends(h, h0) && Classify(p, t, h0).Bit?
    requires |Adopted(h, h0)| + FreeSlots(h0) == FreeSlots(h)
    ensures |Adopted(h, Classify(p, t, h0).hints)| + FreeSlots(Classify(p, t, h0).hints) == FreeSlots(h)
  {
    var a0 := Adopted(h, h0);
    if p != t && h0.background != Some(p) && h0.foreground != Some(p) {
      assert p !in a0;
      assert Adopted(h, Classify(p, t, h0).hints) == a0 + {p};
      assert |a0 + {p}| == |a0| + 1;
    }
  }

  /** A clash is reported at the first pixel that matches neither hint once
      both are taken; everything before it scanned without a clash. */
  lemma {:induction false} ResolveClashPoint(ps: seq<bv8>, t: bv8, h: Hints)
    requires Resolve(ps, t, h).ClashAt?
    ensures var k := Resolve(ps, t, h).index;
      && k < |ps|
      && Resolve(ps[..k], t, h).Scanned?
      && Classify(ps[k], t, Resolve(ps[..k], t, h).hints) == ThirdColor
    decreases |ps|
  {
    var n := |ps|;
    var init := ps[..n - 1];
    if Resolve(init, t, h).ClashAt? {
      ResolveClashPoint(init, t, h);
      var k := Resolve(init, t, h).index;
      assert init[..k] == ps[..k];
    } else {
      assert init == ps[..n - 1];
    }
  }

  /** Once a clash occurs, scanning further pixels reports the same clash. */
  lemma {:induction false} ResolveClashPersists(ps: seq<bv8>, qs: seq<bv8>, t: bv8, h: Hints)
    requires |ps| <= |qs| && ps == qs[..|ps|]
    requires Resolve(ps, t, h).ClashAt?
    ensures Resolve(qs, t, h) == Resolve(ps, t, h)
    decreases |qs|
  {
    if |ps| < |qs| {
      var init := qs[..|qs| - 1];
      assert ps == init[..|ps|];
      ResolveClashPersists(ps, init, t, h);
    } else {
      assert ps == qs;
    }
  }

  /** The order-independent reading of a colour clash: pixels scan without a
      clash exactly when the colours they need beyond the given hints fit in
      the hint slots still free. */
  lemma ResolveCapacity(ps: seq<bv8>, t: bv8, h: Hints)
    ensures Resolve(ps, t, h).Scanned? <==> |NewColors(ps, t, h)| <= FreeSlots(h)
  {
    if Resolve(ps, t, h).Scanned? {
      ResolveAdopts(ps, t, h);
      ResolveSlots(ps, t, h);
    } else {
      ResolveClashPoint(ps, t, h);
      var k := Resolve(ps, t, h).index;
      var pre := ps[..k];
      ResolveScanned(pre, t, h);
      var h0 := Resolve(pre, t, h).hints;
      var p := ps[k];
      ResolveAdopts(pre, t, h);
      ResolveSlots(pre, t, h);
      assert p !in Adopted(h, h0);
      assert p in NewColors(ps, t, h);
      assert NewColors(pre, t, h) <= NewColors(ps, t, h) by {
        forall i | 0 <= i < |pre| ensures pre[i] == ps[i] { }
      }
      Sets.SubsetCardinality(NewColors(pre, t, h) + {p}, NewColors(ps, t, h));
    }
  }

  /** Number of the eight pixels from (x, y) that lie inside the grid. */
  function Readable(g: Grid, x: nat, y: nat): (n: nat)
    ensures n <= 8
    ensures n > 0 ==> y < g.height && x + n <= g.width
  {
    if y >= g.height || x >= g.width then 0
    else if g.width - x < 8 then g.width - x
    else 8
  }

  /** The first `n` of the readable pixels of row `y` from column `x`. */
  function Row(g: Grid, x: nat, y: nat, n: nat): (r: seq<bv8>)
    requires g.Wf() && n <= Readable(g, x, y)
    ensures |r| == n
    ensures forall k :: 0 <= k < n ==> r[k] == g.At(x + k, y)
  {
    if n == 0 then []
    else
      OffsetInBounds(g.width, g.height, x, y);
      g.cells[Offset(g.width, x, y)..Offset(g.width, x, y) + n]
  }

  lemma RowPrefix(g: Grid, x: nat, y: nat, n: nat, k: nat)
    requires g.Wf() && n <= Readable(g, x, y) && k <= n
    ensures Row(g, x, y, n)[..k] == Row(g, x, y, k)
  {
  }

  /** Extending a row scan by its next pixel is one Classify step. */
  lemma RowStep(g: Grid, t: bv8, x: nat, y: nat, h: Hints, k: nat)
    requires g.Wf() && k < Readable(g, x, y)
    ensures Resolve(Row(g, x, y, k + 1), t, h) ==
      match Resolve(Row(g, x, y, k), t, h)
      case ClashAt(i) => ClashAt(i)
      case Scanned(bits, h1) =>
        match Classify(g.At(x + k, y), t, h1)
        case ThirdColor => ClashAt(k)
        case Bit(b, h2) => Scanned(bits + [b], h2)
  {
    RowPrefix(g, x, y, k + 1, k);
  }

  /** Bit `b` of a byte counted from the most significant end, the bit
      get_byte computes for pixel x + b. */
  predicate MsbBit(byte: bv8, b: nat)
    requires b < 8
  {
    BitAt(byte, 7 - b)
  }

  /** Image::get_byte as a function of the pixel grid: x must be a multiple
      of 8; the eight pixels from (x, y) are classified in order, pixel
      x + b giving bit 7 - b; the first clash, or else the first pixel
      outside the grid, is the error. */
  function RowByte(g: Grid, transparent: bv8, x: nat, y: nat, h: Hints): Result<(bv8, Hints)>
    requires g.Wf()
  {
    if x % 8 != 0 then Err(XNotMultipleOf8)
    else
      var n := Readable(g, x, y);
      var row := Row(g, x, y, n);
      match Resolve(row, transparent, h)
      case ClashAt(k) => Err(ColorClash(x + k, y))
      case Scanned(bits, h') =>
        if n < 8 then Err(InvalidCoordinates(x + n, y))
        else Ok((Pack(bits), h'))
  }

  /** RowByte once the readable pixels have been scanned without a clash. */
  lemma RowByteOfScan(g: Grid, t: bv8, x: nat, y: nat, h: Hints)
    requires g.Wf() && x % 8 == 0
    requires Resolve(Row(g, x, y, Readable(g, x, y)), t, h).Scanned?
    ensures var n := Readable(g, x, y);
      var s := Resolve(Row(g, x, y, n), t, h);
      RowByte(g, t, x, y, h) ==
        if n < 8 then Err(InvalidCoordinates(x + n, y)) else Ok((Pack(s.bits), s.hints))
  {
  }

  /** One more pixel of a clash-free scan: its Classify step extends the
      scan, or a third colour there is the clash RowByte reports. */
  lemma ScanStep(g: Grid, t: bv8, x: nat, y: nat, h: Hints, k: nat, bits: seq<bool>, hints: Hints)
    requires g.Wf() && x % 8 == 0 && k < Readable(g, x, y)
    requires Resolve(Row(g, x, y, k), t, h) == Scanned(bits, hints)
    ensures var step := Classify(g.At(x + k, y), t, hints);
      && (step.Bit? ==> Resolve(Row(g, x, y, k + 1), t, h) == Scanned(bits + [step.on], step.hints))
      && (step.ThirdColor? ==> RowByte(g, t, x, y, h) == Err(ColorClash(x + k, y)))
  {
    RowStep(g, t, x, y, h, k);
    if Classify(g.At(x + k, y), t, hints).ThirdColor? {
      var n := Readable(g, x, y);
      RowPrefix(g, x, y, n, k + 1);
      ResolveClashPersists(Row(g, x, y, k + 1), Row(g, x, y, n), t, h);
      RowByteOfClash(g, t, x, y, h);
    }
  }

  /** RowByte once the readable pixels have been scanned into a clash. */
  lemma RowByteOfClash(g: Grid, t: bv8, x: nat, y: nat, h: Hints)
    requires g.Wf() && x % 8 == 0
    requires Resolve(Row(g, x, y, Readable(g, x, y)), t, h).ClashAt?
    ensures RowByte(g, t, x, y, h) ==
      Err(ColorClash(x + Resolve(Row(g, x, y, Readable(g, x, y)), t, h).index, y))
  {
  }

  /** get_byte's result bit by bit: bit 7 - b is set exactly when pixel
      (x + b, y) is the final foreground colour; a clear bit is a transparent
      pixel or the final background colour; set hints are never changed, and
      a foreground is adopted only once the background is known. */
  lemma RowByteBits(g: Grid, t: bv8, x: nat, y: nat, h: Hints)
    requires g.Wf() && RowByte(g, t, x, y, h).Ok?
    ensures x % 8 == 0 && y < g.height && x + 8 <= g.width
    ensures var (byte, h') := RowByte(g, t, x, y, h).value;
      && Extends(h, h')
      && (h.foreground.None? && h'.foreground.Some? ==> h'.background.Some?)
      && (forall b :: 0 <= b < 8 ==> (MsbBit(byte, b) <==> IsForeground(g.At(x + b, y), t, h')))
      && (forall b :: 0 <= b < 8 ==> !MsbBit(byte, b) ==>
            g.At(x + b, y) == t || h'.background == Some(g.At(x + b, y)))
  {
    var row := Row(g, x, y, 8);
    ResolveScanned(row, t, h);
    var s := Resolve(row, t, h);
    var byte := Pack(s.bits);
    assert RowByte(g, t, x, y, h) == Ok((byte, s.hints));
    forall b | 0 <= b < 8
      ensures MsbBit(byte, b) == s.bits[b] && row[b] == g.At(x + b, y)
    {
      PackBit(s.bits, b);
    }
  }

  /** The colour-clash error of get_byte: it names a pixel of the scanned
      row that is not transparent, arrives when both hints are taken, and
      matches neither of them. */
  lemma RowByteClash(g: Grid, t: bv8, x: nat, y: nat, h: Hints, cx: nat, cy: nat)
    requires g.Wf() && RowByte(g, t, x, y, h) == Err(ColorClash(cx, cy))
    ensures cy == y && x <= cx < x + 8 && g.InBounds(cx, cy)
    ensures var pre := Resolve(Row(g, x, y, cx - x), t, h);
      && pre.Scanned?
      && pre.hints.background.Some? && pre.hints.foreground.Some?
      && g.At(cx, cy) != t && !Holds(pre.hints, g.At(cx, cy))
  {
    var n := Readable(g, x, y);
    var row := Row(g, x, y, n);
    ResolveClashPoint(row, t, h);
    RowPrefix(g, x, y, n, cx - x);
  }

  /** get_byte repeated over a list of strip origins in order, the hints of
      each call carried into the next, as every encoder does within a cell. */
  function Strips(g: Grid, transparent: bv8, origins: seq<(nat, nat)>, h: Hints): Result<(seq<bv8>, Hints)>
    requires g.Wf()
    decreases |origins|
  {
    if origins == [] then Ok(([], h))
    else
      match Strips(g, transparent, origins[..|origins| - 1], h)
      case Err(e) => Err(e)
      case Ok((bytes, h1)) =>
        var (x, y) := origins[|origins| - 1];
        match RowByte(g, transparent, x, y, h1)
        case Err(e) => Err(e)
        case Ok((b, h2)) => Ok((bytes + [b], h2))
  }

  lemma {:induction false} StripsLength(g: Grid, t: bv8, origins: seq<(nat, nat)>, h: Hints)
    requires g.Wf() && Strips(g, t, origins, h).Ok?
    ensures |Strips(g, t, origins, h).value.0| == |origins|
    decreases |origins|
  {
    if origins != [] {
      StripsLength(g, t, origins[..|origins| - 1], h);
    }
  }

  /** Extending the list of strip origins by one is one more get_byte call. */
  lemma StripsSnoc(g: Grid, t: bv8, origins: seq<(nat, nat)>, h: Hints, k: nat)
    requires g.Wf() && k < |origins|
    ensures Strips(g, t, origins[..k + 1], h) ==
      match Strips(g, t, origins[..k], h)
      case Err(e) => Err(e)
      case Ok((bytes, h1)) =>
        match RowByte(g, t, origins[k].0, origins[k].1, h1)
        case Err(e) => Err(e)
        case Ok((b, h2)) => Ok((bytes + [b], h2))
  {
    assert origins[..k + 1][..k] == origins[..k];
  }

  /** The loop every encoder runs over one cell: get_byte at each origin in
      turn, the hints of one call passed to the next, stopping at the first
      error. */
  method ReadStrips(image: Image, origins: seq<(nat, nat)>, h: Hints) returns (r: Result<(seq<bv8>, Hints)>)
    requires image.Valid()
    ensures r == Strips(image.Value(), image.palette.transparentIndex, origins, h)
  {
    ghost var g := image.Value();
    ghost var t := image.palette.transparentIndex;
    var bytes: seq<bv8> := [];
    var hints := h;
    for k := 0 to |origins|
      invariant Strips(g, t, origins[..k], h) == Ok((bytes, hints))
    {
      StripsSnoc(g, t, origins, h, k);
      var (x, y) := origins[k];
      var got := image.GetByte(x, y, hints);
      if got.Err? {
        assert origins[..|origins|] == origins;
        StripsErrPersists(g, t, origins, h, k + 1);
        return Err(got.error);
      }
      bytes := bytes + [got.value.0];
      hints := got.value.1;
    }
    assert origins[..|origins|] == origins;
    return Ok((bytes, hints));
  }

  /** A failure among the first k origins is the failure of the whole list. */
  lemma {:induction false} StripsErrPersists(g: Grid, t: bv8, origins: seq<(nat, nat)>, h: Hints, k: nat)
    requires g.Wf() && k <= |origins|
    requires Strips(g, t, origins[..k], h).Err?
    ensures Strips(g, t, origins, h) == Strips(g, t, origins[..k], h)
    decreases |origins| - k
  {
    if k < |origins| {
      StripsSnoc(g, t, origins, h, k);
      StripsErrPersists(g, t, origins, h, k + 1);
    } else {
      assert origins[..k] == origins;
    }
  }

  class Image {
    const pixels: Matrix
    const palette: Palette

    predicate Valid() {
      pixels.Valid()
    }

    function Width(): nat {
      pixels.width
    }

    function Height(): nat {
      pixels.height
    }

    /** The pixel grid, as a value. */
    function Value(): Grid
      reads pixels.data
    {
      pixels.Value()
    }

    /** Image(width, height, palette): every pixel starts as index 0. */
    constructor (width: nat, height: nat, p: Palette)
      ensures Valid() && fresh(pixels) && fresh(pixels.data) && palette == p
      ensures pixels.width == width && pixels.height == height
      ensures pixels.data[..] == seq(width * height, _ => 0)
    {
      pixels := new Matrix(width, height);
      palette := p;
    }

    /** Image::get, forwarding to the pixel matrix. */
    method Get(x: nat, y: nat) returns (r: Result<bv8>)
      requires Valid()
      ensures r.Ok? <==> Value().InBounds(x, y)
      ensures r.Ok? ==> r.value == Value().At(x, y)
      ensures r.Err? ==> r.error == InvalidCoordinates(x, y)
    {
      r := pixels.Get(x, y);
    }

    /** Image::set, forwarding to the pixel matrix. */
    method Set(x: nat, y: nat, index: bv8) returns (r: Result<()>)
      requires Valid()
      modifies pixels.data
      ensures r.Ok? <==> Value().InBounds(x, y)
      ensures r.Err? ==> r.error == InvalidCoordinates(x, y) && pixels.data[..] == old(pixels.data[..])
      ensures r.Ok? ==> Value().At(x, y) == index
      ensures r.Ok? ==> forall x': nat, y': nat :: Value().InBounds(x', y') && (x', y') != (x, y) ==>
                          Value().At(x', y') == old(Value()).At(x', y')
    {
      r := pixels.Set(x, y, index);
    }

    /** Image::get_rgb: the palette colour of pixel (x, y). */
    function GetRgb(x: nat, y: nat): (r: Result<Rgb>)
      requires Valid()
      reads pixels.data, palette
      ensures !Value().InBounds(x, y) ==> r == Err(InvalidCoordinates(x, y))
      ensures r.Ok? ==> Value().InBounds(x, y) && Value().At(x, y) as int < |palette.entries| &&
                        r.value == palette.entries[Value().At(x, y) as int]
      ensures Value().InBounds(x, y) && Value().At(x, y) as int >= |palette.entries| ==>
                r == Err(PaletteIndexOutOfRange)
    {
      var g := Value();
      if !g.InBounds(x, y) then Err(InvalidCoordinates(x, y))
      else palette.Get(g.At(x, y))
    }

    /** Image::set_rgb: stores the first palette index of `color`, so that
        get_rgb gives `color` back; an absent colour or a position outside
        the image is an error and changes no pixel. */
    method SetRgb(x: nat, y: nat, color: Rgb) returns (r: Result<()>)
      requires Valid() && |palette.entries| < 256
      modifies pixels.data
      ensures color !in palette.entries ==> r == Err(InvalidColor(color))
      ensures color in palette.entries && !Value().InBounds(x, y) ==> r == Err(InvalidCoordinates(x, y))
      ensures r.Ok? <==> color in palette.entries && Value().InBounds(x, y)
      ensures r.Err? ==> pixels.data[..] == old(pixels.data[..])
      ensures r.Ok? ==> GetRgb(x, y) == Ok(color)
      ensures r.Ok? ==> forall x': nat, y': nat :: Value().InBounds(x', y') && (x', y') != (x, y) ==>
                          Value().At(x', y') == old(Value()).At(x', y')
    {
      var index :- palette.Lookup(color);
      r := pixels.Set(x, y, index);
    }

    /** One pass of get_byte's loop once the pixel is read: the byte
        shifts left, the pixel's bit comes in as Classify says (the hints
        change the same way), or a third colour stops the loop. */
    static method ShiftPixel(pixel: bv8, t: bv8, background: Option<bv8>, foreground: Option<bv8>,
                             byte: bv8, ghost bits: seq<bool>)
      returns (ok: bool, byte': bv8, background': Option<bv8>, foreground': Option<bv8>)
      requires byte == Pack(bits)
      ensures ok <==> Classify(pixel, t, Hints(background, foreground)).Bit?
      ensures ok ==> var step := Classify(pixel, t, Hints(background, foreground));
        Hints(background', foreground') == step.hints && byte' == Pack(bits + [step.on])
    {
      PackSnoc(bits, false);
      PackSnoc(bits, true);
      ok, byte', background', foreground' := true, byte << 1, background, foreground;
      if pixel == t || background == Some(pixel) {
      } else if foreground == Some(pixel) {
        byte' := byte' | 1;
      } else if background.None? {
        background' := Some(pixel);
      } else if foreground.None? {
        foreground' := Some(pixel);
        byte' := byte' | 1;
      } else {
        ok := false;
      }
    }

    /** Image::get_byte: the loop over the eight pixels, shifting each bit in
        and updating the two hints, equals RowByte. */
    method GetByte(x: nat, y: nat, h: Hints) returns (r: Result<(bv8, Hints)>)
      requires Valid()
      ensures r == RowByte(Value(), palette.transparentIndex, x, y, h)
    {
      if x % 8 != 0 {
        return Err(XNotMultipleOf8);
      }
      var t := palette.transparentIndex;
      ghost var g := pixels.Value();
      ghost var n := Readable(g, x, y);
      var background, foreground := h.background, h.foreground;
      ghost var bits: seq<bool> := [];
      var byte: bv8 := 0;
      var bit := 0;
      while bit < 8
        invariant 0 <= bit <= n
        invariant |bits| == bit && byte == Pack(bits)
        invariant Resolve(Row(g, x, y, bit), t, h) == Scanned(bits, Hints(background, foreground))
      {
        var got := pixels.Get(x + bit, y);
        if got.Err? {
          assert Err(got.error) == RowByte(g, t, x, y, h) by {
            assert bit == n;
            RowByteOfScan(g, t, x, y, h);
          }
          return Err(got.error);
        }
        var pixel := got.value;
        assert pixel == g.At(x + bit, y) by {
          assert x + bit < g.width && y < g.height;
        }
        ghost var step := Classify(pixel, t, Hints(background, foreground));
        ScanStep(g, t, x, y, h, bit, bits, Hints(background, foreground));
        var ok;
        ok, byte, background, foreground := ShiftPixel(pixel, t, background, foreground, byte, bits);
        if !ok {
          return Err(ColorClash(x + bit, y));
        }
        bits := bits + [step.on];
        bit := bit + 1;
      }
      assert Ok((byte, Hints(background, foreground))) == RowByte(g, t, x, y, h) by {
        RowByteOfScan(g, t, x, y, h);
      }
      return Ok((byte, Hints(background, foreground)));
    }
  }
}
