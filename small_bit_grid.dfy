/** `SmallBitGrid` (src/grid/small_bit_grid.rs): the constructors, `parse` and the two
    flips. The representation, `get`, `set`, `Display`, `rotate` and the bit/array
    conversions are in `BitGrid` and `Bits`. */
module SmallBitGrid {
  import opened Bits
  import opened Outcome
  import opened BitGrid

  /** `empty`: `None` exactly when width * height > 64, otherwise every cell is clear
      and so is every other bit. */
  function Empty(width: U8, height: U8): (r: Option<Grid>)
    ensures r.Some? <==> width * height <= 64
    ensures r.Some? ==> r.value.width == width && r.value.height == height && NoStrayBits(r.value)
    ensures r.Some? ==> forall x: nat, y: nat :: x < width && y < height ==> !Get(r.value, x, y)
  {
    AllBitsOfMaxAndZero();
    FitsIsProduct(width, height);
    if Fits(width, height) then Some(Grid(width, height, 0)) else None
  }

  /** `zero_size`: the 0 by 0 grid, which prints as the empty text. */
  function ZeroSize(): (r: Grid)
    ensures r.width == 0 && r.height == 0 && Valid(r) && NoStrayBits(r)
    ensures Render(r) == []
  {
    AllBitsOfMaxAndZero();
    Grid(0, 0, 0)
  }

  /** `filled`: `None` exactly when width * height > 64, otherwise every bit is set,
      the cells included. */
  function Filled(width: U8, height: U8): (r: Option<Grid>)
    ensures r.Some? <==> width * height <= 64
    ensures r.Some? ==> r.value.width == width && r.value.height == height
    ensures r.Some? ==> forall x: nat, y: nat :: x < width && y < height ==> Get(r.value, x, y)
    ensures r.Some? ==> r.value.grid == U64_MAX && forall n :: 0 <= n < 64 ==> Bit(r.value.grid, n)
  {
    AllBitsOfMaxAndZero();
    FitsIsProduct(width, height);
    if Fits(width, height) then
      var g := Grid(width, height, U64_MAX);
      assert forall x: nat, y: nat :: x < width && y < height ==> Index(width, x, y) < 64 by {
        forall x: nat, y: nat | x < width && y < height ensures Index(width, x, y) < 64 {
          IndexBound(width, height, x, y);
        }
      }
      Some(g)
    else None
  }

  /** `from_number`: `None` exactly when width * height > 64, otherwise cell (x, y) is
      bit width * y + x of the number (Index). */
  function FromNumber(width: U8, height: U8, id: U64): (r: Option<Grid>)
    ensures r.Some? <==> width * height <= 64
    ensures r.Some? ==> r.value.width == width && r.value.height == height
    ensures r.Some? ==> forall x: nat, y: nat :: x < width && y < height ==>
      Get(r.value, x, y) == Bit(id, Index(width, x, y))
    ensures r.Some? ==> r.value.grid == id
  {
    FitsIsProduct(width, height);
    if Fits(width, height) then Some(Grid(width, height, id)) else None
  }

  /** `from_arr`: `arr_to_bits` (which panics on more than 64 values) then `from_number`:
      cell (x, y) is entry width * y + x of the array, or clear past its end. */
  method FromArr(width: U8, height: U8, arr: seq<bool>) returns (r: Option<Grid>)
    requires |arr| <= 64
    ensures r.Some? <==> width * height <= 64
    ensures r.Some? ==> r.value.width == width && r.value.height == height
    ensures r.Some? ==> forall x: nat, y: nat :: x < width && y < height ==>
      Get(r.value, x, y) == (Index(width, x, y) < |arr| && arr[Index(width, x, y)])
    ensures r.Some? ==> (NoStrayBits(r.value) <==> forall n :: Area(width, height) <= n < |arr| ==> !arr[n])
  {
    var bits := ArrToBits(arr);
    r := FromNumber(width, height, bits);
    FitsIsProduct(width, height);
    if r.Some? {
      forall x: nat, y: nat | x < width && y < height
        ensures Get(r.value, x, y) == (Index(width, x, y) < |arr| && arr[Index(width, x, y)])
      {
        IndexBound(width, height, x, y);
      }
    }
  }

  /** `parse`: the width is the length of the text before the first `|` (as a u8), the
      height the number of `|` plus one (as a u8, which panics at 255 separators); the
      character loop must then reach the end of the text with a full last row. The
      result is a grid exactly when the text is well formed, and then it holds the
      cells of the text, has no stray bits and prints as the text. A text of at most
      64 characters never panics. */
  method Parse(s: string) returns (r: Run<Option<Grid>>)
    ensures (r.Returns? && r.value.Some?) <==> WellFormed(s)
    ensures r.Returns? && r.value.Some? ==>
      Matches(r.value.value, s) && NoStrayBits(r.value.value) && Render(r.value.value) == s
    ensures |s| <= 64 ==> r.Returns?
  {
    var width := FirstRowWidth(s);
    var bars := Bars(s);
    if WellFormed(s) {
      WellFormedSizes(s);
    }
    if bars % 256 == 255 {
      return Panics;
    }
    var height: U8 := bars % 256 + 1;
    if !Fits(width, height) {
      return Returns(None);
    }
    var scan := ScanCells(s, width, height);
    if scan.Panics? {
      return Panics;
    }
    if scan.value.Rejected? {
      return Returns(None);
    }
    if scan.value.x != width {
      return Returns(None);
    }
    ScannedWellFormed(s, scan.value.grid, width, height);
    return Returns(Some(scan.value.grid));
  }

  /** `vertical_flip`: a copy of the grid with every cell mirrored left to right; the
      bits outside the cells are those of the original. */
  method VerticalFlip(g: Grid) returns (r: Grid)
    requires Valid(g)
    ensures IsVerticalFlip(g, r) && SameStrayBits(r, g)
  {
    r := VerticalFlipOnto(g, g);
  }

  /** `horizontal_flip`: a copy of the grid with every cell mirrored top to bottom; the
      bits outside the cells are those of the original. */
  method HorizontalFlip(g: Grid) returns (r: Grid)
    requires Valid(g)
    ensures IsHorizontalFlip(g, r) && SameStrayBits(r, g)
  {
    r := HorizontalFlipOnto(g, g);
  }

  /** Flipping twice, either way, gives back the very same grid. */
  method FlipsTwice(g: Grid) returns (v: Grid, h: Grid)
    requires Valid(g)
    ensures v == g && h == g
  {
    var v1 := VerticalFlip(g);
    v := VerticalFlip(v1);
    VerticalFlipTwice(g, v1, v);
    var h1 := HorizontalFlip(g);
    h := HorizontalFlip(h1);
    HorizontalFlipTwice(g, h1, h);
  }

  /** Rotating four times gives back a grid that has no stray bits. */
  method RotateFourTimes(g: Grid) returns (r: Grid)
    requires Valid(g) && NoStrayBits(g)
    ensures r == g
  {
    var b := Rotate(g);
    var c := Rotate(b);
    var d := Rotate(c);
    r := Rotate(d);
    BitGrid.RotateFourTimes(g, b, c, d, r);
  }

  /** Printing then parsing a grid with at least one row and no stray bits gives it back. */
  method FmtParse(g: Grid) returns (r: Run<Option<Grid>>)
    requires Valid(g) && NoStrayBits(g) && g.height >= 1
    ensures r == Returns(Some(g))
  {
    var text := Fmt(g);
    RenderWellFormed(g);
    r := Parse(text);
    var back := r.value.value;
    GridsEqual(g, back);
  }
}
