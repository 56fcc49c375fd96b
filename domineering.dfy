/** The Domineering `Position` (src/domineering.rs): a packed boolean grid in which a
    filled cell is taken and an empty cell is free. The representation, `at`, `set`,
    `Display`, `rotate` and the bit/array conversions are those of `BitGrid` and `Bits`;
    this module holds the constructors, `parse`, the flips and the game rules. */
module Domineering {
  import opened Bits
  import opened Outcome
  import opened BitGrid

  datatype PositionError = TooLarge | CouldNotParse

  /** `check_dimensions`: `TooLarge` exactly when width * height > 64. */
  function CheckDimensions(width: U8, height: U8): (r: Result<(), PositionError>)
    ensures r.Ok? <==> width * height <= 64
    ensures r.Err? ==> r.error == TooLarge
  {
    FitsIsProduct(width, height);
    if Fits(width, height) then Ok(()) else Err(TooLarge)
  }

  /** `empty`: every cell free and no other bit set. */
  function Empty(width: U8, height: U8): (r: Result<Grid, PositionError>)
    ensures r.Err? <==> width * height > 64
    ensures r.Err? ==> r.error == TooLarge
    ensures r.Ok? ==> r.value.width == width && r.value.height == height && NoStrayBits(r.value)
    ensures r.Ok? ==> forall x: nat, y: nat :: x < width && y < height ==> !Get(r.value, x, y)
  {
    AllBitsOfMaxAndZero();
    match CheckDimensions(width, height)
    case Err(e) => Err(e)
    case Ok(_) => Ok(Grid(width, height, 0))
  }

  /** `filled`: every bit set, the cells included. */
  function Filled(width: U8, height: U8): (r: Result<Grid, PositionError>)
    ensures r.Err? <==> width * height > 64
    ensures r.Err? ==> r.error == TooLarge
    ensures r.Ok? ==> r.value.width == width && r.value.height == height
    ensures r.Ok? ==> forall x: nat, y: nat :: x < width && y < height ==> Get(r.value, x, y)
    ensures r.Ok? ==> r.value.grid == U64_MAX && forall n :: 0 <= n < 64 ==> Bit(r.value.grid, n)
  {
    AllBitsOfMaxAndZero();
    match CheckDimensions(width, height)
    case Err(e) => Err(e)
    case Ok(_) =>
      assert forall x: nat, y: nat :: x < width && y < height ==> Index(width, x, y) < 64 by {
        forall x: nat, y: nat | x < width && y < height ensures Index(width, x, y) < 64 {
          IndexBound(width, height, x, y);
        }
      }
      Ok(Grid(width, height, U64_MAX))
  }

  /** `from_number`: cell (x, y) is bit width * y + x of the number. */
  function FromNumber(width: U8, height: U8, id: U64): (r: Result<Grid, PositionError>)
    ensures r.Err? <==> width * height > 64
    ensures r.Err? ==> r.error == TooLarge
    ensures r.Ok? ==> r.value.width == width && r.value.height == height
    ensures r.Ok? ==> forall x: nat, y: nat :: x < width && y < height ==>
      Get(r.value, x, y) == Bit(id, Index(width, x, y))
    ensures r.Ok? ==> r.value.grid == id
  {
    match CheckDimensions(width, height)
    case Err(e) => Err(e)
    case Ok(_) => Ok(Grid(width, height, id))
  }

  /** `from_arr`: `arr_to_bits` (which panics on more than 64 values) then `from_number`. */
  method FromArr(width: U8, height: U8, arr: seq<bool>) returns (r: Result<Grid, PositionError>)
    requires |arr| <= 64
    ensures r.Err? <==> width * height > 64
    ensures r.Err? ==> r.error == TooLarge
    ensures r.Ok? ==> r.value.width == width && r.value.height == height
    ensures r.Ok? ==> forall x: nat, y: nat :: x < width && y < height ==>
      Get(r.value, x, y) == (Index(width, x, y) < |arr| && arr[Index(width, x, y)])
  {
    var bits := ArrToBits(arr);
    r := FromNumber(width, height, bits);
    if r.Ok? {
      FitsIsProduct(width, height);
      forall x: nat, y: nat | x < width && y < height
        ensures Get(r.value, x, y) == (Index(width, x, y) < |arr| && arr[Index(width, x, y)])
      {
        IndexBound(width, height, x, y);
      }
    }
  }

  // ---------------------------------------------------------------------------------
  // Parsing

  /** What `Position::parse` accepts: a text of cells and separators whose rows but the
      last have the width of the first row. The grid has that width and one row per
      row of the text; a cell holds the character at its place, and a cell past the end
      of a short last row is free. */
  predicate ReadLoosely(s: string, g: Grid)
  {
    var rows := Rows(s);
    InNotation(s) && FullRows(rows, g.width) && g.width == FirstRowWidth(s) && g.height == |rows|
    && forall x: nat, y: nat :: x < g.width && y < g.height ==>
         Get(g, x, y) == (x < |rows[y]| && rows[y][x] == '#')
  }

  /** Every cell of the last row of `s`, however long the row, is written into the bit
      of its place in the last row of `g`. */
  predicate LastRowRead(s: string, g: Grid)
  {
    var rows := Rows(s);
    var last := |rows| - 1;
    forall x: nat :: x < |rows[last]| ==> Get(g, x, last) == (rows[last][x] == '#')
  }

  /** The loop state at the end of a text gives the loosely read grid. */
  lemma ScannedLoosely(s: string, g: Grid, x: nat, width: U8, height: U8)
    requires ScannedAs(s, g, x, width, height) && Fits(width, height)
    requires width == FirstRowWidth(s) && Bars(s) % 256 != 255 && height == Bars(s) % 256 + 1
    ensures ReadLoosely(s, g)
    ensures x <= width ==> NoStrayBits(g)
  {
    var rows := Rows(s);
    var last := |rows| - 1;
    ModOfSmall(Bars(s), 256);
    assert |rows| == height;
    assert Area(width, height) == Index(width, width, last);
    forall cx: nat, cy: nat | cx < width && cy < height
      ensures Get(g, cx, cy) == (cx < |rows[cy]| && rows[cy][cx] == '#')
    {
      if cy == last && cx >= x {
        IndexBound(width, height, cx, cy);
      }
    }
  }

  /** `parse` as written: the sizes come from the first row and the number of `|`
      (height as a u8 plus one, which panics at 255 separators); then the character loop
      runs, and whatever grid it has built at the end of the text is returned. There is
      no check that the last row has the width of the others (see `Parse`): a short
      last row leaves its missing cells free, and every cell of a long last row is still
      written, at bit width * y + x, past the cells of the grid. */
  method ParseAsWritten(s: string) returns (r: Run<Result<Grid, PositionError>>)
    ensures r == Returns(Err(TooLarge)) <==>
      Bars(s) % 256 != 255 && !Fits(FirstRowWidth(s), Bars(s) % 256 + 1)
    ensures r == Returns(Err(CouldNotParse)) ==> !InNotation(s) || !FullRows(Rows(s), FirstRowWidth(s))
    ensures r.Returns? && r.value.Ok? ==> ReadLoosely(s, r.value.value)
    ensures r.Returns? && r.value.Ok? && |Rows(s)[|Rows(s)| - 1]| <= FirstRowWidth(s) ==>
      NoStrayBits(r.value.value)
    ensures r.Returns? && r.value.Ok? ==> LastRowRead(s, r.value.value)
    ensures (Bars(s) % 256 != 255 && Regular(s, FirstRowWidth(s), Bars(s) % 256 + 1)
      && Fits(FirstRowWidth(s), Bars(s) % 256 + 1)) ==> r.Returns? && r.value.Ok?
    ensures |s| <= 64 ==> r.Returns?
    ensures (|s| <= 64 && Fits(FirstRowWidth(s), Bars(s) % 256 + 1) && InNotation(s)
      && FullRows(Rows(s), FirstRowWidth(s))) ==> r.Returns? && r.value.Ok?
  {
    var width := FirstRowWidth(s);
    var bars := Bars(s);
    if bars % 256 == 255 {
      return Panics;
    }
    var height: U8 := bars % 256 + 1;
    if !Fits(width, height) {
      return Returns(Err(TooLarge));
    }
    var scan := ScanCells(s, width, height);
    if scan.Panics? {
      return Panics;
    }
    if scan.value.Rejected? {
      return Returns(Err(CouldNotParse));
    }
    ScannedLoosely(s, scan.value.grid, scan.value.x, width, height);
    return Returns(Ok(scan.value.grid));
  }

  /** Cutting the last cell off a well-formed text of two or more rows leaves a text that
      is not well formed, since its last row is one cell short. */
  lemma CutText(s: string)
    requires WellFormed(s) && Bars(s) >= 1 && |s| >= 1 && s[|s| - 1] != '|'
    ensures !WellFormed(s[..|s| - 1])
    ensures Bars(s[..|s| - 1]) == Bars(s) && FirstRowWidth(s[..|s| - 1]) == FirstRowWidth(s)
    ensures Regular(s[..|s| - 1], |Rows(s)[0]|, |Rows(s)|) && |Rows(s)[0]| >= 1
  {
    var t := s[..|s| - 1];
    var c := s[|s| - 1];
    assert s == t + [c];
    RowsSnoc(t, c);
    var R := Rows(s);
    var T := Rows(t);
    var k := |R|;
    assert |T| == k;
    assert T[0] == R[0];
    forall j | 0 <= j < k - 1 ensures T[j] == R[j] {
      assert R[j] == T[..k - 1][j];
    }
    assert T[k - 1] + [c] == R[k - 1];
    assert InNotation(t) by {
      forall i | 0 <= i < |t| ensures t[i] == '|' || IsCellChar(t[i]) {
        assert t[i] == s[i];
      }
    }
  }

  /** `parse` as written accepts such a text: it returns a grid of the full size whose
      missing last cell is free. The corrected `Parse` returns `Err(CouldNotParse)`. */
  method CutLastCell(s: string) returns (t: string, r: Run<Result<Grid, PositionError>>)
    requires WellFormed(s) && Bars(s) >= 1 && |s| >= 1 && s[|s| - 1] != '|'
    ensures t == s[..|s| - 1] && !WellFormed(t)
    ensures r.Returns? && r.value.Ok?
    ensures r.value.value.width == |Rows(s)[0]| && r.value.value.height == |Rows(s)|
    ensures |Rows(s)[0]| >= 1
    ensures !Get(r.value.value, |Rows(s)[0]| - 1, |Rows(s)| - 1)
  {
    t := s[..|s| - 1];
    CutText(s);
    WellFormedSizes(s);
    r := ParseAsWritten(t);
  }

  lemma RowsOne()
    ensures Rows("#") == ["#"]
  {
    RowsSnoc("", '#');
    assert "" + ['#'] == "#";
  }

  lemma RowsOneBar()
    ensures Rows("#|") == ["#", ""]
  {
    RowsOne();
    RowsSnoc("#", '|');
    assert "#" + ['|'] == "#|";
  }

  lemma RowsTwo()
    ensures Rows("#|#") == ["#", "#"]
  {
    RowsOneBar();
    RowsSnoc("#|", '#');
    assert "#|" + ['#'] == "#|#";
    assert "" + ['#'] == "#";
  }

  lemma RowsLong()
    ensures Rows("#|##") == ["#", "##"]
  {
    RowsTwo();
    RowsSnoc("#|#", '#');
    assert "#|#" + ['#'] == "#|##";
    assert "#" + ['#'] == "##";
  }

  /** The first row `#` of both texts is one byte wide. */
  lemma FirstRowOneWide(s: string)
    requires Rows(s)[0] == "#"
    ensures FirstRowWidth(s) == 1
  {
    CellRowLen("#");
  }

  /** A 1 by 2 grid fits and has two cells. */
  lemma FitsOneByTwo()
    ensures Fits(1, 2) && Area(1, 2) == 2 && Index(1, 1, 1) == 2
  {
    FitsIsProduct(1, 2);
  }

  /** What `parse` computes from `#|##`: one bar, a first row one byte wide, only cells
      and separators, and a last row longer than the first. */
  lemma LongTextSizes()
    ensures Rows("#|##") == ["#", "##"] && InNotation("#|##") && |"#|##"| == 4
    ensures Bars("#|##") == 1 && FirstRowWidth("#|##") == 1 && FullRows(Rows("#|##"), 1)
    ensures !WellFormed("#|##")
  {
    RowsLong();
    FirstRowOneWide("#|##");
    var rows := Rows("#|##");
    assert |rows[0]| == 1 && |rows[1]| == 2;
    assert forall i :: 0 <= i < |"#|##"| ==> "#|##"[i] == '|' || IsCellChar("#|##"[i]);
  }

  /** What `parse` computes from `#|#`: one bar and a first row one byte wide. */
  lemma ShortTextSizes()
    ensures Rows("#|#") == ["#", "#"] && InNotation("#|#") && |"#|#"| == 3
    ensures Bars("#|#") == 1 && FirstRowWidth("#|#") == 1 && FullRows(Rows("#|#"), 1)
    ensures WellFormed("#|#")
  {
    RowsTwo();
    FirstRowOneWide("#|#");
    FitsOneByTwo();
    assert forall i :: 0 <= i < |"#|#"| ==> "#|#"[i] == '|' || IsCellChar("#|#"[i]);
  }

  /** `parse` as written also accepts a last row longer than the first: `#|##` gives a
      1 by 2 position whose two cells are filled and whose bit 2, which stands for no
      cell, is set as well. It prints as `#|#`, yet it differs from what `#|#` parses to,
      and so from it under the derived equality. The corrected `Parse` rejects `#|##`. */
  method LongLastRow() returns (long: Run<Result<Grid, PositionError>>, short: Run<Result<Grid, PositionError>>,
                                corrected: Run<Result<Grid, PositionError>>)
    ensures long.Returns? && long.value.Ok? && short.Returns? && short.value.Ok?
    ensures long.value.value.width == 1 && long.value.value.height == 2
    ensures Get(long.value.value, 0, 0) && Get(long.value.value, 0, 1)
    ensures Bit(long.value.value.grid, 2) && !NoStrayBits(long.value.value)
    ensures Render(long.value.value) == "#|#" && Render(short.value.value) == "#|#"
    ensures long.value.value != short.value.value
    ensures corrected == Returns(Err(CouldNotParse))
  {
    long := ParseLong();
    short := ParseShort();
    corrected := ParseLongCorrected();
    var g := long.value.value;
    var h := short.value.value;
    FitsOneByTwo();
    PrintsShortText(g);
    PrintsShortText(h);
  }

  /** `parse("#|##")` as written: both cells and bit 2 are set. */
  method ParseLong() returns (r: Run<Result<Grid, PositionError>>)
    ensures r.Returns? && r.value.Ok?
    ensures r.value.value.width == 1 && r.value.value.height == 2
    ensures Get(r.value.value, 0, 0) && Get(r.value.value, 0, 1) && Get(r.value.value, 1, 1)
  {
    LongTextSizes();
    FitsOneByTwo();
    r := ParseAsWritten("#|##");
  }

  /** `parse("#|#")` as written: both cells set and nothing else. */
  method ParseShort() returns (r: Run<Result<Grid, PositionError>>)
    ensures r.Returns? && r.value.Ok?
    ensures r.value.value.width == 1 && r.value.value.height == 2 && NoStrayBits(r.value.value)
    ensures Get(r.value.value, 0, 0) && Get(r.value.value, 0, 1)
  {
    ShortTextSizes();
    FitsOneByTwo();
    r := ParseAsWritten("#|#");
  }

  /** The corrected `parse("#|##")` rejects the long last row. */
  method ParseLongCorrected() returns (r: Run<Result<Grid, PositionError>>)
    ensures r == Returns(Err(CouldNotParse))
  {
    LongTextSizes();
    FitsOneByTwo();
    r := Parse("#|##");
  }

  /** A 1 by 2 grid with both cells filled prints as `#|#`, whatever its other bits. */
  lemma PrintsShortText(g: Grid)
    requires g.width == 1 && g.height == 2 && Get(g, 0, 0) && Get(g, 0, 1)
    ensures Render(g) == "#|#"
  {
    ShortTextSizes();
    assert Matches(g, "#|#");
    RenderMatches(g, "#|#");
  }

  /** `parse` with the last-row check that `SmallBitGrid::parse` has: the result is a
      position exactly when the text is well formed, and then it holds the cells of the
      text, has no stray bits and prints as the text. `TooLarge` is returned exactly when
      the computed sizes do not fit, and a text of at most 64 characters never panics. */
  method Parse(s: string) returns (r: Run<Result<Grid, PositionError>>)
    ensures (r.Returns? && r.value.Ok?) <==> WellFormed(s)
    ensures r.Returns? && r.value.Ok? ==>
      Matches(r.value.value, s) && NoStrayBits(r.value.value) && Render(r.value.value) == s
    ensures r == Returns(Err(TooLarge)) <==>
      Bars(s) % 256 != 255 && !Fits(FirstRowWidth(s), Bars(s) % 256 + 1)
    ensures |s| <= 64 ==> r.Returns?
    ensures |s| <= 64 ==>
      (r == Returns(Err(CouldNotParse)) <==> Fits(FirstRowWidth(s), Bars(s) % 256 + 1) && !WellFormed(s))
  {
    var width := FirstRowWidth(s);
    var bars := Bars(s);
    if WellFormed(s) {
      WellFormedSizes(s);
    }
    if bars % 256 == 255 {
      return Panics;
    }
    var height: U8 := bars % 256 + 1;
    if !Fits(width, height) {
      return Returns(Err(TooLarge));
    }
    var scan := ScanCells(s, width, height);
    if scan.Panics? {
      return Panics;
    }
    if scan.value.Rejected? {
      return Returns(Err(CouldNotParse));
    }
    if scan.value.x != width {
      return Returns(Err(CouldNotParse));
    }
    ScannedWellFormed(s, scan.value.grid, width, height);
    return Returns(Ok(scan.value.grid));
  }

  /** Printing then parsing a position with at least one row and no stray bits gives it
      back. */
  method FmtParse(g: Grid) returns (r: Run<Result<Grid, PositionError>>)
    requires Valid(g) && NoStrayBits(g) && g.height >= 1
    ensures r == Returns(Ok(g))
  {
    var text := Fmt(g);
    RenderWellFormed(g);
    r := Parse(text);
    var back := r.value.value;
    GridsEqual(g, back);
  }

  /** The same roundtrip for `parse` as written, as the display test runs it: the text
      `fmt` prints has full rows, so the missing last-row check makes no difference. */
  method FmtParseAsWritten(g: Grid) returns (r: Run<Result<Grid, PositionError>>)
    requires Valid(g) && NoStrayBits(g) && g.height >= 1
    ensures r == Returns(Ok(g))
  {
    var text := Fmt(g);
    RenderWellFormed(g);
    WellFormedSizes(text);
    r := ParseAsWritten(text);
    GridsEqual(g, r.value.value);
  }

  /** The empty grid of a size that fits has no bit set. */
  lemma EmptyGrid(width: U8, height: U8)
    requires Fits(width, height)
    ensures Valid(Grid(width, height, 0)) && NoStrayBits(Grid(width, height, 0))
  {
    AllBitsOfMaxAndZero();
  }

  /** `vertical_flip`: every cell mirrored left to right into an empty grid, so no bit
      outside the cells is set. */
  method VerticalFlip(g: Grid) returns (r: Grid)
    requires Valid(g)
    ensures IsVerticalFlip(g, r) && NoStrayBits(r)
  {
    EmptyGrid(g.width, g.height);
    r := VerticalFlipOnto(g, Grid(g.width, g.height, 0));
  }

  /** `horizontal_flip`: every cell mirrored top to bottom into an empty grid. */
  method HorizontalFlip(g: Grid) returns (r: Grid)
    requires Valid(g)
    ensures IsHorizontalFlip(g, r) && NoStrayBits(r)
  {
    EmptyGrid(g.width, g.height);
    r := HorizontalFlipOnto(g, Grid(g.width, g.height, 0));
  }

  /** Flipping a position with no stray bits twice, either way, gives it back; a
      position with stray bits loses them at the first flip. */
  method FlipsTwice(g: Grid) returns (v: Grid, h: Grid)
    requires Valid(g) && NoStrayBits(g)
    ensures v == g && h == g
  {
    var v1 := VerticalFlip(g);
    v := VerticalFlip(v1);
    VerticalFlipTwice(g, v1, v);
    var h1 := HorizontalFlip(g);
    h := HorizontalFlip(h1);
    HorizontalFlipTwice(g, h1, h);
  }
}
