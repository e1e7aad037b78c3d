/** Character sets (src/Charset.cc): up to 256 distinct 8x8 one-bit tiles,
    each stored as 8 bytes in a 2048-byte table and found again by content.
    The table is modelled as 256 rows of 8 bytes; Flatten gives the bytes. */
module Charsets {
  import opened Errors
  import Sets

  /** The number of characters a charset holds (hard-coded in Charset.cc). */
  const Capacity: nat := 256

  /** Bytes of the character table: 8 per character. */
  const DataSize: nat := 2048

  /** An 8x8 tile, one byte per row; the C++ code reads it as a 64-bit key. */
  type Tile = seq<bv8>

  const Blank: Tile := [0, 0, 0, 0, 0, 0, 0, 0]

  /** A character table: 256 tiles of 8 bytes. */
  predicate IsTable(d: seq<Tile>) {
    |d| == Capacity && forall i :: 0 <= i < |d| ==> |d[i]| == 8
  }

  /** The bytes of the first `n` tiles, as they lie in memory. */
  function Flatten(d: seq<Tile>): seq<bv8> {
    if d == [] then [] else Flatten(d[..|d| - 1]) + d[|d| - 1]
  }

  /** Tile `i` of a table occupies bytes 8i to 8i+8 of its flattened form. */
  lemma {:induction false} FlattenSlices(d: seq<Tile>)
    requires forall i :: 0 <= i < |d| ==> |d[i]| == 8
    ensures |Flatten(d)| == |d| * 8
    ensures forall i :: 0 <= i < |d| ==> Flatten(d)[i * 8..i * 8 + 8] == d[i]
    decreases |d|
  {
    if d != [] {
      var n := |d| - 1;
      var init := d[..n];
      FlattenSlices(init);
      var f := Flatten(d);
      assert f == Flatten(init) + d[n];
      forall i | 0 <= i < |d|
        ensures f[i * 8..i * 8 + 8] == d[i]
      {
        if i < n {
          assert f[i * 8..i * 8 + 8] == Flatten(init)[i * 8..i * 8 + 8];
          assert init[i] == d[i];
        } else {
          assert f[i * 8..i * 8 + 8] == d[n];
        }
      }
    }
  }

  /** The table read from `bytes`: tile `i` is bytes 8i to 8i+8. */
  function Unflatten(bytes: seq<bv8>): (d: seq<Tile>)
    requires |bytes| >= DataSize
    ensures IsTable(d)
    ensures forall i :: 0 <= i < Capacity ==> d[i] == bytes[i * 8..i * 8 + 8]
  {
    seq(Capacity, i requires 0 <= i < Capacity => bytes[i * 8..i * 8 + 8])
  }

  /** Reading a table and flattening it again gives the 2048 bytes read. */
  lemma UnflattenRoundTrip(bytes: seq<bv8>)
    requires |bytes| >= DataSize
    ensures Flatten(Unflatten(bytes)) == bytes[..DataSize]
  {
    var d := Unflatten(bytes);
    FlattenSlices(d);
    var f := Flatten(d);
    forall k | 0 <= k < DataSize
      ensures f[k] == bytes[k]
    {
      var i := k / 8;
      assert i < Capacity && d[i] == bytes[i * 8..i * 8 + 8];
      assert f[i * 8..i * 8 + 8] == bytes[i * 8..i * 8 + 8];
      assert f[k] == f[i * 8..i * 8 + 8][k - i * 8];
    }
  }

  /** The state of a charset: the character table, the number of characters
      in use and the map from tile contents to character index. */
  datatype Contents = Contents(data: seq<Tile>, nchars: nat, chars: map<Tile, nat>)

  /** The invariant both constructors establish and add keeps: every key is
      stored at its index, which is the first index holding that tile and
      lies below nchars; every character in use is a key; every character
      past nchars is blank. */
  predicate Sound(c: Contents) {
    && IsTable(c.data) && c.nchars <= Capacity
    && (forall t :: t in c.chars ==> c.chars[t] < c.nchars && c.data[c.chars[t]] == t)
    && (forall t, i :: t in c.chars && 0 <= i < c.chars[t] ==> c.data[i] != t)
    && (forall i :: 0 <= i < c.nchars ==> c.data[i] in c.chars)
    && (forall i :: c.nchars <= i < Capacity ==> c.data[i] == Blank)
  }

  /** Charset(): an all-zero table with no characters in use. */
  function Empty(): (c: Contents)
    ensures Sound(c) && c.nchars == 0 && c.chars == map[]
    ensures forall i :: 0 <= i < Capacity ==> c.data[i] == Blank
  {
    Contents(seq(Capacity, _ => Blank), 0, map[])
  }

  /** Charset::add on a charset state: the index of `tile`, appending it when
      it is new, or OutOfCharacters when it is new and the table is full. */
  function AddTile(c: Contents, tile: Tile): (r: Result<(nat, Contents)>)
    requires Sound(c) && |tile| == 8
    ensures r.Err? <==> c.nchars == Capacity && forall i :: 0 <= i < c.nchars ==> c.data[i] != tile
    ensures r.Err? ==> r.error == OutOfCharacters
    ensures r.Ok? ==> var (index, c') := r.value;
      && Sound(c')
      && index < c'.nchars && c'.data[index] == tile
      && (forall i :: 0 <= i < index ==> c'.data[i] != tile)
      && c'.data[..c.nchars] == c.data[..c.nchars]
      && c'.chars.Keys == c.chars.Keys + {tile}
      && c'.chars[tile] == index
      && (forall t :: t in c.chars ==> c'.chars[t] == c.chars[t])
      && (index < c.nchars ==> c' == c)
      && (index >= c.nchars ==> index == c.nchars && c'.nchars == c.nchars + 1)
  {
    if tile in c.chars then Ok((c.chars[tile], c))
    else if c.nchars == Capacity then Err(OutOfCharacters)
    else
      var n := c.nchars;
      var c' := Contents(c.data[n := tile], n + 1, c.chars[tile := n]);
      AppendSound(c, tile, c');
      Ok((n, c'))
  }

  /** Appending a new tile at nchars keeps the invariant and the characters
      already in use. */
  lemma AppendSound(c: Contents, tile: Tile, c': Contents)
    requires Sound(c) && |tile| == 8 && tile !in c.chars && c.nchars < Capacity
    requires c' == Contents(c.data[c.nchars := tile], c.nchars + 1, c.chars[tile := c.nchars])
    ensures Sound(c')
    ensures forall i :: 0 <= i < c.nchars ==> c.data[i] != tile
    ensures c'.data[..c.nchars] == c.data[..c.nchars]
  {
    var n := c.nchars;
    assert forall i :: 0 <= i < n ==> c.data[i] != tile;
    assert IsTable(c'.data);
    assert forall t :: t in c'.chars ==> c'.chars[t] < c'.nchars && c'.data[c'.chars[t]] == t;
    assert forall t, i :: t in c'.chars && 0 <= i < c'.chars[t] ==> c'.data[i] != t;
    assert forall i :: 0 <= i < c'.nchars ==> c'.data[i] in c'.chars;
    assert c'.data[..n] == c.data[..n];
  }

  /** In a sound state every key's index holds that key, so keys with
      equal indices are equal. */
  lemma IndexOfTile(c: Contents, a: Tile, b: Tile)
    requires Sound(c) && a in c.chars && b in c.chars
    ensures c.chars[a] < c.nchars && c.data[c.chars[a]] == a
    ensures c.chars[a] == c.chars[b] <==> a == b
  {
  }

  /** Repeated add: the indices of `tiles` in order and the final state, or
      the first failure. */
  function AddAll(c: Contents, tiles: seq<Tile>): Result<(seq<nat>, Contents)>
    requires Sound(c) && forall k :: 0 <= k < |tiles| ==> |tiles[k]| == 8
    decreases |tiles|
  {
    if tiles == [] then Ok(([], c))
    else
      match AddAll(c, tiles[..|tiles| - 1])
      case Err(e) => Err(e)
      case Ok((codes, c1)) =>
        match AddTile(c1, tiles[|tiles| - 1])
        case Err(e) => Err(e)
        case Ok((index, c2)) => Ok((codes + [index], c2))
  }

  /** The distinct tiles among the first `n` of `tiles`. */
  function Distinct(tiles: seq<Tile>, n: nat): set<Tile>
    requires n <= |tiles|
  {
    set k | 0 <= k < n :: tiles[k]
  }

  lemma DistinctPrefix(tiles: seq<Tile>, m: nat, k: nat)
    requires k <= m <= |tiles|
    ensures Distinct(tiles[..m], k) == Distinct(tiles, k)
  {
    assert forall j :: 0 <= j < k ==> tiles[..m][j] == tiles[j];
  }

  lemma DistinctSnoc(tiles: seq<Tile>, n: nat)
    requires n < |tiles|
    ensures Distinct(tiles, n + 1) == Distinct(tiles, n) + {tiles[n]}
  {
  }

  /** A distinct tile is appended, a repeated one changes nothing: from the
      empty charset, the keys are the distinct tiles and nchars counts them. */
  lemma {:induction false} AddAllKeys(tiles: seq<Tile>)
    requires forall k :: 0 <= k < |tiles| ==> |tiles[k]| == 8
    requires AddAll(Empty(), tiles).Ok?
    ensures var c := AddAll(Empty(), tiles).value.1;
      c.chars.Keys == Distinct(tiles, |tiles|) && c.nchars == |Distinct(tiles, |tiles|)|
    decreases |tiles|
  {
    if tiles != [] {
      var n := |tiles| - 1;
      var init := tiles[..n];
      AddAllKeys(init);
      AddAllSound(Empty(), init);
      var c0 := AddAll(Empty(), init).value.1;
      var c := AddTile(c0, tiles[n]).value.1;
      assert AddAll(Empty(), tiles).value.1 == c;
      DistinctPrefix(tiles, n, n);
      DistinctSnoc(tiles, n);
      if tiles[n] !in Distinct(tiles, n) {
        assert |Distinct(tiles, n + 1)| == |Distinct(tiles, n)| + 1;
      }
    }
  }

  /** Each tile's index is the one the final map holds for it. */
  lemma AddAllIndices(c: Contents, tiles: seq<Tile>)
    requires Sound(c) && forall k :: 0 <= k < |tiles| ==> |tiles[k]| == 8
    requires AddAll(c, tiles).Ok?
    ensures var (codes, c') := AddAll(c, tiles).value;
      && |codes| == |tiles|
      && (forall t :: t in c.chars ==> t in c'.chars && c'.chars[t] == c.chars[t])
      && (forall i :: 0 <= i < |tiles| ==> tiles[i] in c'.chars && codes[i] == c'.chars[tiles[i]])
  {
    AddAllKeeps(c, tiles);
    AddAllCodesFrom(c, tiles);
  }

  /** Repeated add never moves a key that was already there. */
  lemma {:induction false} AddAllKeeps(c: Contents, tiles: seq<Tile>)
    requires Sound(c) && forall k :: 0 <= k < |tiles| ==> |tiles[k]| == 8
    requires AddAll(c, tiles).Ok?
    ensures var c' := AddAll(c, tiles).value.1;
      forall t :: t in c.chars ==> t in c'.chars && c'.chars[t] == c.chars[t]
    decreases |tiles|
  {
    if tiles != [] {
      AddAllLast(c, tiles);
      AddAllKeeps(c, tiles[..|tiles| - 1]);
    }
  }

  /** Repeated add returns for every tile the index the final map holds. */
  lemma {:induction false} AddAllCodesFrom(c: Contents, tiles: seq<Tile>)
    requires Sound(c) && forall k :: 0 <= k < |tiles| ==> |tiles[k]| == 8
    requires AddAll(c, tiles).Ok?
    ensures var (codes, c') := AddAll(c, tiles).value;
      && |codes| == |tiles|
      && forall i :: 0 <= i < |tiles| ==> tiles[i] in c'.chars && codes[i] == c'.chars[tiles[i]]
    decreases |tiles|
  {
    if tiles != [] {
      var n := |tiles| - 1;
      var init := tiles[..n];
      AddAllLast(c, tiles);
      AddAllCodesFrom(c, init);
      var r0 := AddAll(c, init).value;
      var r := AddAll(c, tiles).value;
      CodesStep(r0.1.chars, r.1.chars, tiles, r0.0);
    }
  }

  /** The last step of AddAll on the maps: the codes grow by the code of the
      last tile, which becomes a key, and the earlier keys keep their codes. */
  lemma AddAllLast(c: Contents, tiles: seq<Tile>)
    requires Sound(c) && forall k :: 0 <= k < |tiles| ==> |tiles[k]| == 8
    requires tiles != [] && AddAll(c, tiles).Ok?
    ensures var n := |tiles| - 1;
      && AddAll(c, tiles[..n]).Ok?
      && var (codes0, c0) := AddAll(c, tiles[..n]).value;
      && var (codes, c1) := AddAll(c, tiles).value;
      && codes == codes0 + [c1.chars[tiles[n]]]
      && c1.chars.Keys == c0.chars.Keys + {tiles[n]}
      && (forall t :: t in c0.chars ==> c1.chars[t] == c0.chars[t])
  {
    var n := |tiles| - 1;
    AddAllSound(c, tiles[..n]);
  }

  /** One step of AddAllCodesFrom: adding the last tile keeps the codes of
      the earlier tiles and gives the last one the code the new map holds. */
  lemma CodesStep(m0: map<Tile, nat>, m1: map<Tile, nat>, tiles: seq<Tile>, codes0: seq<nat>)
    requires |tiles| > 0 && |codes0| == |tiles| - 1
    requires var init := tiles[..|tiles| - 1];
      forall i :: 0 <= i < |init| ==> init[i] in m0 && codes0[i] == m0[init[i]]
    requires m1.Keys == m0.Keys + {tiles[|tiles| - 1]}
    requires forall t :: t in m0 ==> m1[t] == m0[t]
    ensures var codes := codes0 + [m1[tiles[|tiles| - 1]]];
      forall i :: 0 <= i < |tiles| ==> tiles[i] in m1 && codes[i] == m1[tiles[i]]
  {
    var init, codes := tiles[..|tiles| - 1], codes0 + [m1[tiles[|tiles| - 1]]];
    forall i | 0 <= i < |tiles|
      ensures tiles[i] in m1 && codes[i] == m1[tiles[i]]
    {
      if i < |init| {
        assert tiles[i] == init[i] && codes[i] == codes0[i];
      }
    }
  }

  /** From the empty charset, a tile seen for the first time gets the number
      of distinct tiles before it. */
  lemma {:induction false} AddAllFirstSeen(tiles: seq<Tile>)
    requires forall k :: 0 <= k < |tiles| ==> |tiles[k]| == 8
    requires AddAll(Empty(), tiles).Ok?
    ensures var codes := AddAll(Empty(), tiles).value.0;
      && |codes| == |tiles|
      && forall i :: 0 <= i < |tiles| && tiles[i] !in Distinct(tiles, i) ==> codes[i] == |Distinct(tiles, i)|
    decreases |tiles|
  {
    if tiles != [] {
      var n := |tiles| - 1;
      var init := tiles[..n];
      AddAllFirstSeen(init);
      AddAllKeys(init);
      AddAllSound(Empty(), init);
      var (codes0, c0) := AddAll(Empty(), init).value;
      var index := AddTile(c0, tiles[n]).value.0;
      var codes := codes0 + [index];
      assert AddAll(Empty(), tiles).value.0 == codes;
      DistinctPrefix(tiles, n, n);
      assert AddTile(c0, tiles[n]).Ok?;
      forall i | 0 <= i < |tiles| && tiles[i] !in Distinct(tiles, i)
        ensures codes[i] == |Distinct(tiles, i)|
      {
        if i == n {
          assert tiles[n] !in c0.chars;
          assert index == c0.nchars;
        } else {
          assert init[i] == tiles[i];
          DistinctPrefix(tiles, n, i);
        }
      }
    }
  }

  /** The indices given from the empty charset: each holds its tile, and two
      tiles share an index exactly when they are equal. */
  lemma AddAllCodes(tiles: seq<Tile>)
    requires forall k :: 0 <= k < |tiles| ==> |tiles[k]| == 8
    requires AddAll(Empty(), tiles).Ok?
    ensures var (codes, c) := AddAll(Empty(), tiles).value;
      && |codes| == |tiles|
      && (forall i :: 0 <= i < |tiles| ==> codes[i] < c.nchars && c.data[codes[i]] == tiles[i])
      && (forall i, j :: 0 <= i < |tiles| && 0 <= j < |tiles| ==> (codes[i] == codes[j] <==> tiles[i] == tiles[j]))
  {
    AddAllIndices(Empty(), tiles);
    var (codes, c) := AddAll(Empty(), tiles).value;
    AddAllSound(Empty(), tiles);
    forall i, j | 0 <= i < |tiles| && 0 <= j < |tiles| && codes[i] == codes[j]
      ensures tiles[i] == tiles[j]
    {
      assert c.data[c.chars[tiles[i]]] == tiles[i];
      assert c.data[c.chars[tiles[j]]] == tiles[j];
    }
  }

  lemma {:induction false} AddAllSound(c: Contents, tiles: seq<Tile>)
    requires Sound(c) && forall k :: 0 <= k < |tiles| ==> |tiles[k]| == 8
    requires AddAll(c, tiles).Ok?
    ensures Sound(AddAll(c, tiles).value.1)
    decreases |tiles|
  {
    if tiles != [] {
      AddAllSound(c, tiles[..|tiles| - 1]);
    }
  }

  /** From the empty charset, adding fails exactly when the tiles include
      more than 256 distinct ones. */
  lemma {:induction false} AddAllCapacity(tiles: seq<Tile>)
    requires forall k :: 0 <= k < |tiles| ==> |tiles[k]| == 8
    ensures AddAll(Empty(), tiles).Err? <==> |Distinct(tiles, |tiles|)| > Capacity
    decreases |tiles|
  {
    if tiles != [] {
      var n := |tiles| - 1;
      var init := tiles[..n];
      AddAllCapacity(init);
      DistinctPrefix(tiles, n, n);
      DistinctSnoc(tiles, n);
      if AddAll(Empty(), init).Ok? {
        AddAllKeys(init);
        AddAllSound(Empty(), init);
        var c0 := AddAll(Empty(), init).value.1;
        if tiles[n] !in Distinct(tiles, n) {
          assert |Distinct(tiles, n + 1)| == |Distinct(tiles, n)| + 1;
          assert tiles[n] !in c0.chars;
          if c0.nchars == Capacity {
            assert forall i :: 0 <= i < c0.nchars ==> c0.data[i] != tiles[n];
          }
        }
      } else {
        assert Distinct(tiles, n) <= Distinct(tiles, n + 1);
        Sets.SubsetCardinality(Distinct(tiles, n), Distinct(tiles, n + 1));
      }
    }
  }

  /** Charset::Charset(data) keeps tile `i` unless it is blank and a blank
      tile came before it. */
  predicate Kept(d: seq<Tile>, i: nat)
    requires IsTable(d) && i < Capacity
  {
    d[i] != Blank || forall j :: 0 <= j < i ==> d[j] != Blank
  }

  /** The tiles among the first `n` characters of a table. */
  function Tiles(d: seq<Tile>, n: nat): set<Tile>
    requires IsTable(d) && n <= Capacity
  {
    set j | 0 <= j < n :: d[j]
  }

  lemma TilesSnoc(d: seq<Tile>, n: nat)
    requires IsTable(d) && n < Capacity
    ensures Tiles(d, n + 1) == Tiles(d, n) + {d[n]}
  {
    forall t | t in Tiles(d, n + 1)
      ensures t in Tiles(d, n) + {d[n]}
    {
      var j :| 0 <= j < n + 1 && d[j] == t;
      if j < n {
        assert t in Tiles(d, n);
      }
    }
    assert d[n] in Tiles(d, n + 1);
  }

  /** What Charset::Charset(data) has established after the first `i` tiles
      of `d`: the keys are exactly those tiles, each at its first index below
      nchars; every tile at or past nchars was skipped; the last tile counted
      was kept; hadEmpty records whether a blank tile was seen. */
  predicate ReloadInv(d: seq<Tile>, i: nat, nchars: nat, chars: map<Tile, nat>, hadEmpty: bool)
    requires IsTable(d) && i <= Capacity
  {
    && nchars <= i
    && (hadEmpty <==> Blank in chars)
    && chars.Keys == Tiles(d, i)
    && (forall t :: t in chars ==> chars[t] < nchars && d[chars[t]] == t)
    && (forall t, j :: t in chars && 0 <= j < chars[t] ==> d[j] != t)
    && (forall j :: 0 <= j < nchars ==> d[j] in chars)
    && (forall j :: nchars <= j < i ==> d[j] == Blank && !Kept(d, j))
    && (i > 0 ==> nchars > 0 && Kept(d, nchars - 1))
  }

  /** A kept tile is entered if new and raises nchars to one past it. */
  lemma ReloadKeep(d: seq<Tile>, i: nat, nchars: nat, chars: map<Tile, nat>, hadEmpty: bool,
                   chars': map<Tile, nat>, hadEmpty': bool)
    requires IsTable(d) && i < Capacity
    requires ReloadInv(d, i, nchars, chars, hadEmpty)
    requires d[i] != Blank || !hadEmpty
    requires chars' == if d[i] in chars then chars else chars[d[i] := i]
    requires hadEmpty' == (hadEmpty || d[i] == Blank)
    ensures ReloadInv(d, i + 1, i + 1, chars', hadEmpty')
  {
    var c := d[i];
    TilesSnoc(d, i);
    assert Kept(d, i);
    assert hadEmpty' <==> Blank in chars';
    assert chars'.Keys == Tiles(d, i + 1);
    assert forall t :: t in chars' ==> chars'[t] < i + 1 && d[chars'[t]] == t;
    assert forall t, j :: t in chars' && 0 <= j < chars'[t] ==> d[j] != t by {
      if c !in chars {
        assert c !in Tiles(d, i);
      }
    }
    assert forall j :: 0 <= j < i + 1 ==> d[j] in chars' by {
      forall j | 0 <= j < i + 1
        ensures d[j] in chars'
      {
        if j == i {
          assert d[j] == c;
        } else if j >= nchars {
          assert !Kept(d, j);
          var k :| 0 <= k < j && d[k] == Blank;
          assert d[k] in Tiles(d, i);
        }
      }
    }
  }

  /** A blank tile after a blank tile changes nothing. */
  lemma ReloadSkip(d: seq<Tile>, i: nat, nchars: nat, chars: map<Tile, nat>, hadEmpty: bool)
    requires IsTable(d) && i < Capacity
    requires ReloadInv(d, i, nchars, chars, hadEmpty)
    requires d[i] == Blank && hadEmpty
    ensures ReloadInv(d, i + 1, nchars, chars, hadEmpty)
  {
    TilesSnoc(d, i);
    assert chars.Keys == Tiles(d, i + 1);
    assert !Kept(d, i) by {
      var k :| k in chars.Keys && k == Blank;
      assert k in Tiles(d, i);
    }
    assert forall j :: nchars <= j < i + 1 ==> d[j] == Blank && !Kept(d, j);
  }

  /** What Charset::Charset(data) promises of the state it builds: the last
      character counted was kept, no character past it was, and the keys are
      all tiles of the table. */
  predicate Reloaded(c: Contents)
    requires IsTable(c.data)
  {
    && 1 <= c.nchars <= Capacity && Kept(c.data, c.nchars - 1)
    && (forall i :: c.nchars <= i < Capacity ==> !Kept(c.data, i))
    && c.chars.Keys == Tiles(c.data, Capacity)
  }

  /** After all 256 tiles the state is sound and reloaded. */
  lemma ReloadDone(d: seq<Tile>, nchars: nat, chars: map<Tile, nat>, hadEmpty: bool)
    requires IsTable(d) && ReloadInv(d, Capacity, nchars, chars, hadEmpty)
    ensures Sound(Contents(d, nchars, chars)) && Reloaded(Contents(d, nchars, chars))
  {
  }

  /** The loop of Charset::Charset(data) over the 256 characters of a table:
      it returns nchars and the map from tile to index. */
  method Reindex(d: seq<Tile>) returns (count: nat, known: map<Tile, nat>)
    requires IsTable(d)
    ensures Sound(Contents(d, count, known)) && Reloaded(Contents(d, count, known))
  {
    count, known := 0, map[];
    var hadEmpty := false;
    for i := 0 to Capacity
      invariant ReloadInv(d, i, count, known, hadEmpty)
    {
      var c := d[i];
      if c != Blank || !hadEmpty {
        ghost var countBefore, knownBefore, hadBefore := count, known, hadEmpty;
        if c !in known {
          known := known[c := i];
        }
        count := i + 1;
        if c == Blank {
          hadEmpty := true;
        }
        ReloadKeep(d, i, countBefore, knownBefore, hadBefore, known, hadEmpty);
      } else {
        ReloadSkip(d, i, count, known, hadEmpty);
      }
    }
    ReloadDone(d, count, known, hadEmpty);
  }

  class Charset {
    const data: array<Tile>
    var nchars: nat
    var chars: map<Tile, nat>

    function State(): Contents
      reads this, data
    {
      Contents(data[..], nchars, chars)
    }

    predicate Valid()
      reads this, data
    {
      Sound(State())
    }

    /** Charset(): the empty charset. */
    constructor ()
      ensures Valid() && State() == Empty() && fresh(data)
    {
      data := new Tile[Capacity](_ => Blank);
      nchars := 0;
      chars := map[];
      new;
      assert data[..] == Empty().data;
    }

    /** Charset(data): the table is the first 2048 bytes given; every tile
      that is kept is entered at its first index and raises nchars to one
      past it. */
    constructor FromBytes(bytes: seq<bv8>)
      requires |bytes| >= DataSize
      ensures Valid() && fresh(data) && data[..] == Unflatten(bytes)
      ensures Reloaded(State())
    {
      var table := new Tile[Capacity](i requires 0 <= i < Capacity => bytes[i * 8..i * 8 + 8]);
      assert table[..] == Unflatten(bytes);
      var count, known := Reindex(table[..]);
      data, nchars, chars := table, count, known;
    }

    /** Charset::add: `AddTile` on the charset's state, in place. */
    method Add(tile: Tile) returns (r: Result<nat>)
      requires Valid() && |tile| == 8
      modifies this, data
      ensures AddTile(old(State()), tile).Ok? <==> r.Ok?
      ensures r.Ok? ==> AddTile(old(State()), tile).value == (r.value, State())
      ensures r.Err? ==> r.error == OutOfCharacters && State() == old(State())
      ensures Valid()
    {
      if tile in chars {
        return Ok(chars[tile]);
      }
      if nchars == Capacity {
        return Err(OutOfCharacters);
      }
      var index := nchars;
      data[index] := tile;
      chars := chars[tile := index];
      nchars := nchars + 1;
      return Ok(index);
    }

    /** Charset::find: the index add would return for a tile already present,
      or nothing; it changes nothing. */
    function Find(tile: Tile): (r: Option<nat>)
      requires Valid() && |tile| == 8
      reads this, data
      ensures r.Some? ==> r.value < nchars && data[r.value] == tile
      ensures r.Some? ==> forall i :: 0 <= i < r.value ==> data[i] != tile
      ensures r.None? <==> forall i :: 0 <= i < nchars ==> data[i] != tile
      ensures r.Some? ==> AddTile(State(), tile) == Ok((r.value, State()))
    {
      if tile in chars then Some(chars[tile]) else None
    }

    /** Charset::save: the bytes of the first nchars characters, or of all 256
      when `full` (the file write itself is not modelled). */
    method Save(full: bool) returns (bytes: seq<bv8>)
      requires Valid()
      ensures |bytes| == (if full then Capacity else nchars) * 8
      ensures forall i :: 0 <= i < (if full then Capacity else nchars) ==>
                bytes[i * 8..i * 8 + 8] == data[i]
      ensures full ==> forall i :: nchars <= i < Capacity ==> bytes[i * 8..i * 8 + 8] == Blank
    {
      var count := if full then Capacity else nchars;
      bytes := Flatten(data[..count]);
      FlattenSlices(data[..count]);
      forall i | 0 <= i < count
        ensures bytes[i * 8..i * 8 + 8] == data[i]
        ensures full && nchars <= i ==> bytes[i * 8..i * 8 + 8] == Blank
      {
        assert data[..count][i] == data[i];
        assert full && nchars <= i ==> State().data[i] == Blank;
      }
    }
  }
}
