/** Colour palettes (src/Palette.cc): an ordered list of 24-bit RGB values
    and one index reserved as "transparent". */
module Palettes {
  import opened Errors

  /** A 24-bit RGB colour held in a 32-bit word, as in the C++ code. */
  type Rgb = bv32

  /** Palette::c64_colodore, the "Colodore" rendering of the 16 C64 colours. */
  const C64Colodore: seq<Rgb> := [
    0x000000, 0xFFFFFF, 0x813338, 0x75CEC8,
    0x8E3C97, 0x56AC4D, 0x2E2C9B, 0xEDF171,
    0x8E5029, 0x553800, 0xC46C71, 0x4A4A4A,
    0x7B7B7B, 0xA9FF9F, 0x706DEB, 0xB2B2B2
  ]

  /** The default transparent index of both constructors. */
  const DefaultTransparentIndex: bv8 := 255

  /** The range check of Palette::get and operator[] as written: it only
      rejects an index strictly greater than the number of entries. */
  predicate IndexGuardAsWritten(size: nat, index: bv8): (b: bool)
    ensures b <==> (index as int < size || index as int == size)
  {
    !(index as int > size)
  }

  /** The as-written guard lets the index equal to the size through, and that
      index names no entry: the C++ code then reads one element past the end
      of the vector. */
  lemma IndexGuardAdmitsSize(size: nat)
    requires size < 256
    ensures IndexGuardAsWritten(size, size as bv8)
    ensures !(size as bv8 as int < size)
  {
    assert size % 256 == size;
  }

  class Palette {
    var entries: seq<Rgb>
    var transparentIndex: bv8

    /** Palette(size, transparent_index): `size` entries, all black. */
    constructor OfSize(size: bv8, transparent: bv8)
      ensures entries == seq(size as int, _ => 0x000000)
      ensures transparentIndex == transparent
    {
      entries := seq(size as int, _ => 0x000000);
      transparentIndex := transparent;
    }

    /** Palette(entries, transparent_index). */
    constructor (colors: seq<Rgb>, transparent: bv8)
      ensures entries == colors && transparentIndex == transparent
    {
      entries := colors;
      transparentIndex := transparent;
    }

    function Size(): nat
      reads this
    {
      |entries|
    }

    /** Palette::lookup: the first index holding `color`. The counter is a
        uint8_t, so the search only terminates for fewer than 256 entries. */
    method Lookup(color: Rgb) returns (r: Result<bv8>)
      requires |entries| < 256
      ensures r.Ok? <==> color in entries
      ensures r.Ok? ==> r.value as int < |entries| && entries[r.value as int] == color
      ensures r.Ok? ==> forall i :: 0 <= i < r.value as int ==> entries[i] != color
      ensures r.Err? ==> r.error == InvalidColor(color)
    {
      var index: bv8 := 0;
      while index as int < |entries|
        invariant index as int <= |entries|
        invariant forall i :: 0 <= i < index as int ==> entries[i] != color
        decreases |entries| - index as int
      {
        if entries[index as int] == color {
          return Ok(index);
        }
        index := index + 1;
      }
      return Err(InvalidColor(color));
    }

    /** Palette::get with the range check corrected to reject every index
        at or past the end (the as-written check is IndexGuardAsWritten). */
    function Get(index: bv8): (r: Result<Rgb>)
      reads this
      ensures r.Ok? <==> index as int < |entries|
      ensures r.Ok? ==> r.value == entries[index as int]
      ensures r.Err? ==> r.error == PaletteIndexOutOfRange
    {
      if index as int >= |entries| then Err(PaletteIndexOutOfRange) else Ok(entries[index as int])
    }

    /** Palette::operator[] used as an lvalue: replaces entry `index` and
        nothing else, with the corrected range check. */
    method SetEntry(index: bv8, color: Rgb) returns (r: Result<()>)
      modifies this
      ensures r.Ok? <==> index as int < |old(entries)|
      ensures r.Ok? ==> entries == old(entries)[index as int := color]
      ensures r.Err? ==> r.error == PaletteIndexOutOfRange && entries == old(entries)
      ensures transparentIndex == old(transparentIndex)
    {
      if index as int >= |entries| {
        return Err(PaletteIndexOutOfRange);
      }
      entries := entries[index as int := color];
      return Ok(());
    }
  }
}
