/** The row-major byte matrix that backs every image and every per-cell
    plane of the converter (src/Matrix.cc). */
module Matrices {
  import opened Errors

  /** Offset of cell (x, y) in row-major storage `width` cells wide. */
  function Offset(width: nat, x: nat, y: nat): nat {
    y * width + x
  }

  lemma MulMonotone(a: nat, b: nat, c: nat)
    requires a <= b
    ensures a * c <= b * c
  {
  }

  lemma OffsetInBounds(width: nat, height: nat, x: nat, y: nat)
    requires x < width && y < height
    ensures Offset(width, x, y) < width * height
    ensures Offset(width, x, y) + (width - x) <= width * height
  {
    MulMonotone(y + 1, height, width);
  }

  /** Row-major offsets of distinct in-bounds cells are distinct. */
  lemma OffsetInjective(width: nat, x: nat, y: nat, x': nat, y': nat)
    requires x < width && x' < width
    requires Offset(width, x, y) == Offset(width, x', y')
    ensures x == x' && y == y'
  {
    if y < y' {
      MulMonotone(y + 1, y', width);
      assert false;
    } else if y' < y {
      MulMonotone(y' + 1, y, width);
      assert false;
    }
  }

  /** Splitting a row-major offset back into its coordinates. */
  lemma OffsetDivMod(width: nat, x: nat, y: nat)
    requires x < width
    ensures Offset(width, x, y) / width == y && Offset(width, x, y) % width == x
  {
    var k := Offset(width, x, y);
    var q, r := k / width, k % width;
    assert k == q * width + r;
    OffsetInjective(width, x, y, r, q);
  }

  /** Replacing the element of cell (x, y) in row-major storage leaves the
      element of every other cell as it was. */
  lemma UpdateOthers<T>(width: nat, height: nat, s: seq<T>, x: nat, y: nat, v: T)
    requires |s| == width * height && x < width && y < height
    ensures Offset(width, x, y) < |s|
    ensures forall x', y' :: 0 <= x' < width && 0 <= y' < height && (x', y') != (x, y) ==>
      Offset(width, x', y') < |s| && s[Offset(width, x, y) := v][Offset(width, x', y')] == s[Offset(width, x', y')]
  {
    OffsetInBounds(width, height, x, y);
    forall x', y' | 0 <= x' < width && 0 <= y' < height && (x', y') != (x, y)
      ensures Offset(width, x', y') < |s| && s[Offset(width, x, y) := v][Offset(width, x', y')] == s[Offset(width, x', y')]
    {
      OffsetInBounds(width, height, x', y');
      if Offset(width, x', y') == Offset(width, x, y) {
        OffsetInjective(width, x', y', x, y);
      }
    }
  }

  /** The value held by a matrix: its dimensions and its row-major cells. */
  datatype Grid = Grid(width: nat, height: nat, cells: seq<bv8>) {

    predicate Wf() {
      |cells| == width * height
    }

    predicate InBounds(x: nat, y: nat) {
      x < width && y < height
    }

    function At(x: nat, y: nat): bv8
      requires Wf() && InBounds(x, y)
    {
      OffsetInBounds(width, height, x, y);
      cells[Offset(width, x, y)]
    }
  }

  class Matrix {
    const width: nat
    const height: nat
    const data: array<bv8>

    predicate Valid() {
      data.Length == width * height
    }

    function Value(): Grid
      reads data
    {
      Grid(width, height, data[..])
    }

    /** Matrix(w, h): the storage is value-initialised, so every cell is 0. */
    constructor (w: nat, h: nat)
      ensures Valid() && width == w && height == h && fresh(data)
      ensures data[..] == seq(w * h, _ => 0)
      ensures forall x: nat, y: nat :: x < w && y < h ==> Value().At(x, y) == 0
    {
      width, height := w, h;
      data := new bv8[w * h](_ => 0);
      new;
      forall x: nat, y: nat | x < w && y < h
        ensures Value().At(x, y) == 0
      {
        OffsetInBounds(w, h, x, y);
      }
    }

    /** Matrix::get: the cell at row-major offset y * width + x, or an error
        when (x, y) lies outside the matrix. */
    method Get(x: nat, y: nat) returns (r: Result<bv8>)
      requires Valid()
      ensures r.Ok? <==> x < width && y < height
      ensures r.Ok? ==> r.value == Value().At(x, y)
      ensures r.Err? ==> r.error == InvalidCoordinates(x, y)
    {
      if !(x < width && y < height) {
        return Err(InvalidCoordinates(x, y));
      }
      OffsetInBounds(width, height, x, y);
      return Ok(data[y * width + x]);
    }

    /** Matrix::set: writes one cell and nothing else; out of bounds it
        fails and the matrix is unchanged. */
    method Set(x: nat, y: nat, v: bv8) returns (r: Result<()>)
      requires Valid()
      modifies data
      ensures r.Ok? <==> x < width && y < height
      ensures r.Err? ==> r.error == InvalidCoordinates(x, y) && data[..] == old(data[..])
      ensures r.Ok? ==> Offset(width, x, y) < data.Length &&
                          data[..] == old(data[..])[Offset(width, x, y) := v]
      ensures r.Ok? ==> Value().At(x, y) == v
      ensures r.Ok? ==> forall x': nat, y': nat :: x' < width && y' < height && (x', y') != (x, y) ==>
                          Value().At(x', y') == old(Value()).At(x', y')
    {
      if !(x < width && y < height) {
        return Err(InvalidCoordinates(x, y));
      }
      OffsetInBounds(width, height, x, y);
      data[y * width + x] := v;
      forall x': nat, y': nat | x' < width && y' < height && (x', y') != (x, y)
        ensures Value().At(x', y') == old(Value()).At(x', y')
      {
        OffsetInBounds(width, height, x', y');
        if Offset(width, x', y') == Offset(width, x, y) {
          OffsetInjective(width, x', y', x, y);
        }
      }
      return Ok(());
    }

    /** Matrix::save: the width * height bytes of the matrix, row by row
        (the file write itself is not modelled). */
    method Save() returns (bytes: seq<bv8>)
      requires Valid()
      ensures |bytes| == width * height
      ensures forall x: nat, y: nat :: x < width && y < height ==>
                Offset(width, x, y) < |bytes| && bytes[Offset(width, x, y)] == Value().At(x, y)
    {
      bytes := data[..];
      forall x: nat, y: nat | x < width && y < height
        ensures Offset(width, x, y) < |bytes| && bytes[Offset(width, x, y)] == Value().At(x, y)
      {
        OffsetInBounds(width, height, x, y);
      }
    }
  }
}
