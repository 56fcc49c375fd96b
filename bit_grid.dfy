/** The packed boolean grid shared by `SmallBitGrid` (src/grid/small_bit_grid.rs) and the
    Domineering `Position` (src/domineering.rs): a width, a height (both u8) and a u64 word
    in which cell (x, y) is bit `width * y + x`. The two source files hold identical copies
    of everything in this module. */
module BitGrid {
  import opened Bits
  import opened Outcome

  type U8 = n: nat | n < 256

  datatype Grid = Grid(width: U8, height: U8, grid: U64)

  /** width * height, the number of cells, written as repeated addition so that proofs
      about cells stay linear (AreaIsProduct). */
  function Area(width: nat, height: nat): nat
  {
    if height == 0 then 0 else Area(width, height - 1) + width
  }

  lemma {:induction false} AreaIsProduct(width: nat, height: nat)
    ensures Area(width, height) == width * height
  {
    if height > 0 {
      AreaIsProduct(width, height - 1);
    }
  }

  /** A later row starts at least one full row further on. */
  lemma {:induction false} AreaMonotone(width: nat, y: nat, y': nat)
    requires y <= y'
    ensures Area(width, y) <= Area(width, y')
    decreases y' - y
  {
    if y < y' {
      AreaMonotone(width, y, y' - 1);
    }
  }

  lemma AreaCommutes(width: nat, height: nat)
    ensures Area(width, height) == Area(height, width)
  {
    AreaIsProduct(width, height);
    AreaIsProduct(height, width);
  }

  /** `check_dimensions`: the cells fit in the 64 bits of the word. */
  predicate Fits(width: nat, height: nat)
  {
    Area(width, height) <= 64
  }

  lemma FitsIsProduct(width: nat, height: nat)
    ensures Fits(width, height) <==> width * height <= 64
  {
    AreaIsProduct(width, height);
  }

  /** Every grid built by the constructors fits; the fields are private. */
  predicate Valid(g: Grid)
  {
    Fits(g.width, g.height)
  }

  /** The bit that holds cell (x, y) in a grid of the given width: width * y + x. */
  function Index(width: nat, x: nat, y: nat): nat
  {
    Area(width, y) + x
  }

  lemma IndexBound(width: nat, height: nat, x: nat, y: nat)
    requires x < width && y < height
    ensures Index(width, x, y) < Area(width, height)
  {
    AreaMonotone(width, y + 1, height);
  }

  lemma IndexInjective(width: nat, x: nat, y: nat, x': nat, y': nat)
    requires x < width && x' < width
    requires Index(width, x, y) == Index(width, x', y')
    ensures x == x' && y == y'
  {
    if y < y' {
      AreaMonotone(width, y + 1, y');
    } else if y' < y {
      AreaMonotone(width, y' + 1, y);
    }
  }

  /** Cells of earlier rows come before every cell of row y. */
  lemma EarlierRows(width: nat, y: nat)
    ensures forall cx: nat, cy: nat :: cy < y && cx < width ==> Index(width, cx, cy) < Area(width, y)
  {
    forall cx: nat, cy: nat | cy < y && cx < width ensures Index(width, cx, cy) < Area(width, y) {
      AreaMonotone(width, cy + 1, y);
    }
  }

  /** `get` / `at`: `(grid >> (width * y + x)) & 1 == 1`. Every caller passes a cell of
      the grid, whose bit is below 64 (IndexBound). */
  function Get(g: Grid, x: nat, y: nat): bool
  {
    Bit(g.grid, Index(g.width, x, y))
  }

  /** `set`: `grid = (grid & !(1 << n)) | ((value as u64) << n)` with n = width * y + x. */
  function Set(g: Grid, x: nat, y: nat, value: bool): (r: Grid)
    requires Index(g.width, x, y) < 64
    ensures r.width == g.width && r.height == g.height
  {
    Pow2Of64();
    SetBitBound(g.grid, Index(g.width, x, y), value, 64);
    g.(grid := SetBit(g.grid, Index(g.width, x, y), value))
  }

  /** `set` changes bit width * y + x and no other bit. */
  lemma SetOnlyThatBit(g: Grid, x: nat, y: nat, value: bool)
    requires Index(g.width, x, y) < 64
    ensures forall n :: Bit(Set(g, x, y, value).grid, n) == if n == Index(g.width, x, y) then value else Bit(g.grid, n)
  {
    forall n ensures Bit(Set(g, x, y, value).grid, n) == if n == Index(g.width, x, y) then value else Bit(g.grid, n) {
      BitOfSetBit(g.grid, Index(g.width, x, y), value, n);
    }
  }

  predicate InGrid(g: Grid, x: nat, y: nat)
  {
    x < g.width && y < g.height
  }

  /** The bits of the word that stand for no cell are all clear. */
  predicate NoStrayBits(g: Grid)
  {
    forall n :: Area(g.width, g.height) <= n < 64 ==> !Bit(g.grid, n)
  }

  /** Setting a cell changes that cell to `value`, every other cell and every bit
      outside the cells stays as it was. */
  lemma GetSet(g: Grid, x: nat, y: nat, value: bool)
    requires InGrid(g, x, y) && Index(g.width, x, y) < 64
    ensures Get(Set(g, x, y, value), x, y) == value
    ensures forall x': nat, y': nat :: x' < g.width ==>
      Get(Set(g, x, y, value), x', y') == if x' == x && y' == y then value else Get(g, x', y')
    ensures forall n :: Area(g.width, g.height) <= n < 64 ==>
      Bit(Set(g, x, y, value).grid, n) == Bit(g.grid, n)
  {
    var i := Index(g.width, x, y);
    BitOfSetBit(g.grid, i, value, i);
    forall x': nat, y': nat | x' < g.width
      ensures Get(Set(g, x, y, value), x', y') == if x' == x && y' == y then value else Get(g, x', y')
    {
      BitOfSetBit(g.grid, i, value, Index(g.width, x', y'));
      if Index(g.width, x', y') == i {
        IndexInjective(g.width, x, y, x', y');
      }
    }
    IndexBound(g.width, g.height, x, y);
    forall n | Area(g.width, g.height) <= n < 64
      ensures Bit(Set(g, x, y, value).grid, n) == Bit(g.grid, n)
    {
      BitOfSetBit(g.grid, i, value, n);
    }
  }

  /** A grid held in a variable: the receiver of `set(&mut self, x, y, val)`, whose
      `grid` field is overwritten. The loops of this model keep their grid in a local
      and apply `Set` to it, which is the same update. */
  class GridVar {
    var value: Grid

    constructor (g: Grid)
      ensures value == g
    {
      value := g;
    }

    /** `set`: only the bit width * y + x changes, and it becomes `v`. */
    method SetCell(x: nat, y: nat, v: bool)
      requires Index(value.width, x, y) < 64
      modifies this
      ensures value == Set(old(value), x, y, v)
      ensures value.width == old(value).width && value.height == old(value).height
      ensures forall n :: Bit(value.grid, n) == if n == Index(value.width, x, y) then v else Bit(old(value).grid, n)
    {
      SetOnlyThatBit(value, x, y, v);
      value := Set(value, x, y, v);
    }
  }

  // ---------------------------------------------------------------------------------
  // The `.#|` notation: rows of `.` (empty) and `#` (filled) joined by `|`.

  predicate IsCellChar(c: char)
  {
    c == '.' || c == '#'
  }

  /** The text split at every `|`, by the last character: a `|` opens a new empty row,
      any other character extends the last row. */
  function Rows(s: string): (rows: seq<string>)
    ensures |rows| == Bars(s) + 1
  {
    if |s| == 0 then [[]]
    else if s[|s| - 1] == '|' then Rows(s[..|s| - 1]) + [[]]
    else
      var r := Rows(s[..|s| - 1]);
      r[..|r| - 1] + [r[|r| - 1] + [s[|s| - 1]]]
  }

  /** The number of `|` characters. */
  function Bars(s: string): (n: nat)
    ensures n <= |s|
  {
    if |s| == 0 then 0 else Bars(s[..|s| - 1]) + (if s[|s| - 1] == '|' then 1 else 0)
  }

  /** Rows joined by `|`, with no separator after the last row. */
  function Join(rows: seq<string>): string
  {
    if |rows| == 0 then []
    else if |rows| == 1 then rows[0]
    else Join(rows[..|rows| - 1]) + "|" + rows[|rows| - 1]
  }

  /** Joining the rows of a text gives the text back. */
  lemma {:induction false} JoinRows(s: string)
    ensures Join(Rows(s)) == s
    decreases |s|
  {
    if |s| > 0 {
      var t := s[..|s| - 1];
      assert s == t + [s[|s| - 1]];
      JoinRows(t);
      var r := Rows(t);
      if s[|s| - 1] != '|' && |r| > 1 {
        assert (r[..|r| - 1] + [r[|r| - 1] + [s[|s| - 1]]])[..|r| - 1] == r[..|r| - 1];
      } else if s[|s| - 1] == '|' {
        assert (r + [[]])[..|r|] == r;
      }
    }
  }

  /** The first row is the text before the first `|` (`split('|').next()`). */
  lemma {:induction false} FirstRow(s: string)
    ensures Rows(s)[0] <= s
    ensures |Rows(s)| == 1 ==> Rows(s)[0] == s
    ensures |Rows(s)| > 1 ==> |Rows(s)[0]| < |s| && s[|Rows(s)[0]|] == '|'
    decreases |s|
  {
    if |s| > 0 {
      var t := s[..|s| - 1];
      FirstRow(t);
    }
  }

  /** One more character: a `|` opens a new row, anything else extends the last one. */
  lemma RowsSnoc(t: string, c: char)
    ensures c == '|' ==> Rows(t + [c]) == Rows(t) + [[]]
    ensures c != '|' ==> Rows(t + [c]) == Rows(t)[..|Rows(t)| - 1] + [Rows(t)[|Rows(t)| - 1] + [c]]
  {
    assert (t + [c])[..|t|] == t;
  }

  /** Appending text with no `|` extends the last row. */
  lemma {:induction false} RowsExtend(t: string, w: string)
    requires forall k :: 0 <= k < |w| ==> w[k] != '|'
    ensures Rows(t + w) == Rows(t)[..|Rows(t)| - 1] + [Rows(t)[|Rows(t)| - 1] + w]
    decreases |w|
  {
    if |w| == 0 {
      assert t + w == t;
      var R := Rows(t);
      assert R[|R| - 1] + w == R[|R| - 1];
      assert R == R[..|R| - 1] + [R[|R| - 1]];
    } else {
      var w', c := w[..|w| - 1], w[|w| - 1];
      assert c != '|';
      RowsExtend(t, w');
      SnocSplit(t, w);
      RowsSnoc(t + w', c);
      LastRowAppend(Rows(t), Rows(t + w'), w', c);
    }
  }

  lemma SnocSplit(t: string, w: string)
    requires |w| > 0
    ensures w[..|w| - 1] + [w[|w| - 1]] == w
    ensures t + w == (t + w[..|w| - 1]) + [w[|w| - 1]]
  {
    assert w == w[..|w| - 1] + [w[|w| - 1]];
  }

  lemma LastRowAppend(R: seq<string>, r: seq<string>, w: string, c: char)
    requires |R| > 0 && r == R[..|R| - 1] + [R[|R| - 1] + w]
    ensures r[..|r| - 1] + [r[|r| - 1] + [c]] == R[..|R| - 1] + [R[|R| - 1] + (w + [c])]
  {
    assert r[..|r| - 1] == R[..|R| - 1];
    assert r[|r| - 1] + [c] == R[|R| - 1] + (w + [c]);
  }

  /** Splitting rows joined by `|` gives them back. */
  lemma {:induction false} RowsJoin(rows: seq<string>)
    requires |rows| >= 1
    requires forall j, k :: 0 <= j < |rows| && 0 <= k < |rows[j]| ==> rows[j][k] != '|'
    ensures Rows(Join(rows)) == rows
  {
    var last := rows[|rows| - 1];
    assert forall k :: 0 <= k < |last| ==> last[k] != '|';
    if |rows| == 1 {
      RowsExtend([], last);
      assert [] + last == last;
      assert Rows([]) == [[]];
    } else {
      var init := rows[..|rows| - 1];
      assert rows == init + [last];
      RowsJoin(init);
      var t := Join(init) + "|";
      RowsSnoc(Join(init), '|');
      assert Rows(t) == init + [[]];
      RowsExtend(t, last);
      assert Join(rows) == t + last;
      assert (init + [[]])[..|init|] == init;
      assert [] + last == last;
    }
  }

  /** Rows made of cells joined by `|` are in the notation. */
  lemma {:induction false} JoinNotation(rows: seq<string>)
    requires forall j, k :: 0 <= j < |rows| && 0 <= k < |rows[j]| ==> IsCellChar(rows[j][k])
    ensures InNotation(Join(rows))
  {
    if |rows| > 1 {
      var init := rows[..|rows| - 1];
      JoinNotation(init);
      var last := rows[|rows| - 1];
      assert forall k :: 0 <= k < |last| ==> IsCellChar(last[k]);
    }
  }

  /** Every character of a text in the notation is a cell or a separator. */
  predicate InNotation(s: string)
  {
    forall i :: 0 <= i < |s| ==> s[i] == '|' || IsCellChar(s[i])
  }

  lemma {:induction false} RowsOfNotation(s: string)
    requires InNotation(s)
    ensures forall j, k :: 0 <= j < |Rows(s)| && 0 <= k < |Rows(s)[j]| ==> IsCellChar(Rows(s)[j][k])
    decreases |s|
  {
    if |s| > 0 {
      var t := s[..|s| - 1];
      assert InNotation(t) by {
        forall i | 0 <= i < |t| ensures t[i] == '|' || IsCellChar(t[i]) {
          assert t[i] == s[i];
        }
      }
      RowsOfNotation(t);
    }
  }

  /** The number of bytes of a character in UTF-8. */
  function Utf8Size(c: char): nat
  {
    if c as int < 0x80 then 1 else if c as int < 0x800 then 2 else if c as int < 0x1_0000 then 3 else 4
  }

  /** `str::len`: the length of a text in UTF-8 bytes. */
  function Utf8Len(s: string): nat
  {
    if |s| == 0 then 0 else Utf8Len(s[..|s| - 1]) + Utf8Size(s[|s| - 1])
  }

  /** A row of cells is as many bytes long as it has characters. */
  lemma {:induction false} CellRowLen(row: string)
    requires forall k :: 0 <= k < |row| ==> IsCellChar(row[k])
    ensures Utf8Len(row) == |row|
    decreases |row|
  {
    if |row| > 0 {
      var t := row[..|row| - 1];
      assert forall k :: 0 <= k < |t| ==> IsCellChar(t[k]) by {
        forall k | 0 <= k < |t| ensures IsCellChar(t[k]) {
          assert t[k] == row[k];
        }
      }
      CellRowLen(t);
    }
  }

  /** `input.split('|').next()?.len() as u8`: the byte length of the first row, as a u8. */
  function FirstRowWidth(s: string): U8
  {
    Utf8Len(Rows(s)[0]) % 256
  }

  /** In a text of cells and separators the first row is as wide as it has characters. */
  lemma FirstRowOfNotation(s: string)
    requires InNotation(s)
    ensures Utf8Len(Rows(s)[0]) == |Rows(s)[0]|
  {
    RowsOfNotation(s);
    CellRowLen(Rows(s)[0]);
  }

  /** A text the parser accepts: cells and separators only, every row as long as the
      first, at most 64 cells and at most 255 rows (the height is a u8). */
  predicate WellFormed(s: string)
  {
    var rows := Rows(s);
    InNotation(s)
    && (forall j :: 0 <= j < |rows| ==> |rows[j]| == |rows[0]|)
    && Fits(|rows[0]|, |rows|)
    && |rows| <= 255
  }

  /** `g` holds exactly the cells written in the well-formed text `s`. */
  predicate Matches(g: Grid, s: string)
  {
    WellFormed(s)
    && g.width == |Rows(s)[0]| && g.height == |Rows(s)|
    && forall x: nat, y: nat :: x < g.width && y < g.height ==>
         Get(g, x, y) == (Rows(s)[y][x] == '#')
  }

  // ---------------------------------------------------------------------------------
  // Display

  function CellChar(filled: bool): char
  {
    if filled then '#' else '.'
  }

  /** Row y as text. */
  function RowText(g: Grid, y: nat): (row: string)
    ensures |row| == g.width
    ensures forall x :: 0 <= x < g.width ==> (row[x] == '#') == Get(g, x, y) && IsCellChar(row[x])
  {
    seq(g.width, x requires 0 <= x => CellChar(Get(g, x, y)))
  }

  function Lines(g: Grid): seq<string>
  {
    seq(g.height, y requires 0 <= y => RowText(g, y))
  }

  /** What `Display` prints: the rows top to bottom joined by `|`. */
  function Render(g: Grid): string
  {
    Join(Lines(g))
  }

  /** What `fmt` has written once it has printed rows 0 .. y - 1. */
  function Printed(g: Grid, y: nat): string
    requires y <= g.height
  {
    if y == 0 then [] else if y == g.height then Join(Lines(g)[..y]) else Join(Lines(g)[..y]) + "|"
  }

  /** `Display::fmt`: each cell as `#` or `.`, a `|` after every row but the last. */
  method Fmt(g: Grid) returns (out: string)
    ensures out == Render(g)
  {
    out := [];
    var y: nat := 0;
    while y < g.height
      invariant y <= g.height
      invariant out == Printed(g, y)
    {
      var x: nat := 0;
      while x < g.width
        invariant x <= g.width
        invariant out == Printed(g, y) + RowText(g, y)[..x]
      {
        out := out + [CellChar(Get(g, x, y))];
        assert RowText(g, y)[..x + 1] == RowText(g, y)[..x] + [CellChar(Get(g, x, y))];
        x := x + 1;
      }
      assert RowText(g, y)[..x] == RowText(g, y);
      assert Lines(g)[..y + 1][..y] == Lines(g)[..y];
      if y != g.height - 1 {
        out := out + "|";
      }
      y := y + 1;
    }
    assert Lines(g)[..y] == Lines(g);
  }

  /** What a grid with at least one row prints is well formed and describes the grid. */
  lemma RenderWellFormed(g: Grid)
    requires Valid(g) && g.height >= 1
    ensures WellFormed(Render(g)) && Matches(g, Render(g))
  {
    var lines := Lines(g);
    forall j, k | 0 <= j < |lines| && 0 <= k < |lines[j]| ensures IsCellChar(lines[j][k]) && lines[j][k] != '|' {
      assert IsCellChar(RowText(g, j)[k]);
    }
    RowsJoin(lines);
    JoinNotation(lines);
    forall x: nat, y: nat | x < g.width && y < g.height ensures Get(g, x, y) == (Rows(Render(g))[y][x] == '#') {
      assert Rows(Render(g))[y] == RowText(g, y);
    }
  }

  /** Printing a grid that matches a well-formed text reproduces the text. */
  lemma RenderMatches(g: Grid, s: string)
    requires Matches(g, s)
    ensures Render(g) == s
  {
    var rows := Rows(s);
    RowsOfNotation(s);
    assert Lines(g) == rows by {
      forall y | 0 <= y < |rows| ensures Lines(g)[y] == rows[y] {
        forall x | 0 <= x < |rows[y]| ensures RowText(g, y)[x] == rows[y][x] {
          assert IsCellChar(rows[y][x]);
        }
      }
    }
    JoinRows(s);
  }

  // ---------------------------------------------------------------------------------
  // The character loop that both `parse` functions run.

  /** The loop either stops early (`return None` / `Err(CouldNotParse)`) or runs to the
      end of the text with the column `x` it reached in the last row. */
  datatype Scan = Rejected | Scanned(grid: Grid, x: nat)

  /** Every row but the last has `width` cells. */
  predicate FullRows(rows: seq<string>, width: nat)
  {
    forall j :: 0 <= j < |rows| - 1 ==> |rows[j]| == width
  }

  /** The rows after reading the text `p`: cells and separators only, every finished row
      had `width` cells, `x` is the length of the row being read and the row number
      fits a u8. */
  predicate RowsRead(p: string, x: nat, width: nat)
  {
    var rows := Rows(p);
    InNotation(p) && FullRows(rows, width) && x == |rows[|rows| - 1]| && |rows| <= 256
  }

  /** Every cell of the finished rows and the first `x` cells of the last row are in `g`. */
  predicate CellsRead(rows: seq<string>, g: Grid, x: nat, width: nat)
    requires |rows| >= 1 && FullRows(rows, width) && x <= |rows[|rows| - 1]|
  {
    var last := |rows| - 1;
    (forall cx: nat, cy: nat :: cy < last && cx < width ==> Get(g, cx, cy) == (rows[cy][cx] == '#'))
    && (forall cx: nat :: cx < x ==> Get(g, cx, last) == (rows[last][cx] == '#'))
  }

  /** Every bit of the word from bit n on is clear. */
  predicate ClearFrom(g: Grid, n: nat)
  {
    forall k :: n <= k < 64 ==> !Bit(g.grid, k)
  }

  /** The state of the loop after the text `p`: the rows read so far, their cells in `g`,
      and every bit from the next one on still clear. */
  predicate ScannedAs(p: string, g: Grid, x: nat, width: nat, height: nat)
  {
    g.width == width && g.height == height && RowsRead(p, x, width)
    && CellsRead(Rows(p), g, x, width) && ClearFrom(g, Index(width, x, |Rows(p)| - 1))
  }

  /** A text whose rows all fit a width by height grid: the loop reads it to the end. */
  predicate Regular(s: string, width: nat, height: nat)
  {
    var rows := Rows(s);
    InNotation(s) && FullRows(rows, width) && |rows[|rows| - 1]| <= width && |rows| <= height
  }

  /** The rows of a prefix: its finished rows are rows of the whole text, and the row it
      ends in begins the corresponding row of the text. */
  lemma {:induction false} RowsOfPrefix(s: string, i: nat)
    requires i <= |s|
    ensures |Rows(s[..i])| <= |Rows(s)|
    ensures forall j :: 0 <= j < |Rows(s[..i])| - 1 ==> Rows(s[..i])[j] == Rows(s)[j]
    ensures Rows(s[..i])[|Rows(s[..i])| - 1] <= Rows(s)[|Rows(s[..i])| - 1]
    decreases |s| - i
  {
    if i < |s| {
      RowsOfPrefix(s, i + 1);
      assert s[..i + 1][..i] == s[..i];
    } else {
      assert s[..i] == s;
    }
  }

  /** One more separator or cell keeps the text in the notation. */
  lemma NotationSnoc(t: string, c: char)
    requires InNotation(t) && (c == '|' || IsCellChar(c))
    ensures InNotation(t + [c])
  {
    var p := t + [c];
    forall k | 0 <= k < |p| ensures p[k] == '|' || IsCellChar(p[k]) {
      if k < |t| {
        assert p[k] == t[k];
      }
    }
  }

  /** A `|` after a full row opens a new, empty row. */
  lemma BarRows(t: string, width: nat)
    requires RowsRead(t, width, width) && |Rows(t)| < 256
    ensures Rows(t + ['|']) == Rows(t) + [[]]
    ensures RowsRead(t + ['|'], 0, width)
  {
    RowsSnoc(t, '|');
    NotationSnoc(t, '|');
    var R := Rows(t);
    var R' := R + [[]];
    assert FullRows(R', width) by {
      forall j | 0 <= j < |R'| - 1 ensures |R'[j]| == width {
        assert R'[j] == R[j];
      }
    }
  }

  /** After a `|` the cells read so far are those of the finished rows. */
  lemma BarCells(R: seq<string>, g: Grid, width: nat)
    requires |R| >= 1 && FullRows(R, width) && |R[|R| - 1]| == width && CellsRead(R, g, width, width)
    ensures FullRows(R + [[]], width) && CellsRead(R + [[]], g, 0, width)
  {
    var R' := R + [[]];
    forall j | 0 <= j < |R'| - 1 ensures |R'[j]| == width {
      assert R'[j] == R[j];
    }
    forall cx: nat, cy: nat | cy < |R| && cx < width ensures Get(g, cx, cy) == (R'[cy][cx] == '#') {
      assert R'[cy] == R[cy];
    }
  }

  /** A `.` or `#` extends the row being read. */
  lemma CellRows(t: string, c: char, x: nat, width: nat)
    requires RowsRead(t, x, width) && IsCellChar(c)
    ensures Rows(t + [c]) == Rows(t)[..|Rows(t)| - 1] + [Rows(t)[|Rows(t)| - 1] + [c]]
    ensures RowsRead(t + [c], x + 1, width)
  {
    RowsSnoc(t, c);
    NotationSnoc(t, c);
    var R := Rows(t);
    var R' := R[..|R| - 1] + [R[|R| - 1] + [c]];
    assert FullRows(R', width) by {
      forall j | 0 <= j < |R'| - 1 ensures |R'[j]| == width {
        assert R'[j] == R[j];
      }
    }
  }

  /** Writing the cell just read at (x, y) keeps every cell read before it. */
  lemma CellCells(R: seq<string>, c: char, g: Grid, x: nat, width: nat)
    requires |R| >= 1 && FullRows(R, width) && x == |R[|R| - 1]| && CellsRead(R, g, x, width)
    requires g.width == width && Index(width, x, |R| - 1) < 64
    ensures var R' := R[..|R| - 1] + [R[|R| - 1] + [c]];
      FullRows(R', width) && CellsRead(R', Set(g, x, |R| - 1, c == '#'), x + 1, width)
  {
    var y := |R| - 1;
    var R' := R[..y] + [R[y] + [c]];
    var g' := Set(g, x, y, c == '#');
    SetOnlyThatBit(g, x, y, c == '#');
    assert FullRows(R', width) by {
      forall j | 0 <= j < |R'| - 1 ensures |R'[j]| == width {
        assert R'[j] == R[j];
      }
    }
    EarlierRows(width, y);
    forall cx: nat, cy: nat | cy < y && cx < width ensures Get(g', cx, cy) == (R'[cy][cx] == '#') {
      assert R'[cy] == R[cy];
    }
    forall cx: nat | cx < x + 1 ensures Get(g', cx, y) == (R'[y][cx] == '#') {
      if cx < x {
        assert R'[y][cx] == R[y][cx];
      }
    }
  }

  /** Writing bit n of a word whose bits from n on are clear leaves those from n + 1 on clear. */
  lemma CellClear(g: Grid, x: nat, y: nat, value: bool)
    requires Index(g.width, x, y) < 64 && ClearFrom(g, Index(g.width, x, y))
    ensures ClearFrom(Set(g, x, y, value), Index(g.width, x + 1, y))
  {
    SetOnlyThatBit(g, x, y, value);
  }

  /** The loop state after reading `i` characters at column `x` of row `y`: the cells of
      `s[..i]` are in `g`, and the next cell's bit, plus the row number, is at most the
      number of characters read. */
  predicate Scanning(s: string, i: nat, g: Grid, x: nat, y: nat, width: nat, height: nat)
  {
    i <= |s| && ScannedAs(s[..i], g, x, width, height) && y == |Rows(s[..i])| - 1
    && Index(width, x, y) + y <= i && Index(width, x, y) <= 64
  }

  /** Before the first character: no row read, every bit clear. */
  lemma ScanStart(s: string, width: nat, height: nat)
    ensures Scanning(s, 0, Grid(width % 256, height % 256, 0), 0, 0, width % 256, height % 256)
  {
    forall n | 0 <= n < 64 ensures !Bit(0, n) {
      ZeroBit(n);
    }
    assert s[..0] == [];
    assert Rows([]) == [[]];
  }

  /** A `|` read at the end of a full row starts the next row. */
  lemma ScanBar(s: string, i: nat, g: Grid, x: nat, y: nat, width: nat, height: nat)
    requires Scanning(s, i, g, x, y, width, height) && i < |s| && s[i] == '|' && x == width && y < 255
    ensures Scanning(s, i + 1, g, 0, y + 1, width, height)
  {
    assert s[..i + 1] == s[..i] + ['|'];
    BarRows(s[..i], width);
    BarCells(Rows(s[..i]), g, width);
    assert Index(width, 0, y + 1) == Index(width, x, y);
  }

  /** A `.` or `#` read at (x, y) is written into that cell's bit. */
  lemma ScanCell(s: string, i: nat, g: Grid, x: nat, y: nat, width: nat, height: nat)
    requires Scanning(s, i, g, x, y, width, height) && i < |s| && IsCellChar(s[i])
    requires Index(width, x, y) < 64
    ensures Scanning(s, i + 1, Set(g, x, y, s[i] == '#'), x + 1, y, width, height)
  {
    assert s[..i + 1] == s[..i] + [s[i]];
    CellRows(s[..i], s[i], x, width);
    CellCells(Rows(s[..i]), s[i], g, x, width);
    CellClear(g, x, y, s[i] == '#');
    assert Index(width, x + 1, y) == Index(width, x, y) + 1;
  }

  /** `grid.set(x, y, chr == '#')` inside the loop, with what it does to the loop state. */
  method WriteCell(s: string, i: nat, g: Grid, x: nat, y: nat, width: nat, height: nat) returns (g': Grid)
    requires Scanning(s, i, g, x, y, width, height) && i < |s| && IsCellChar(s[i])
    requires Index(width, x, y) < 64
    ensures Scanning(s, i + 1, g', x + 1, y, width, height)
  {
    ScanCell(s, i, g, x, y, width, height);
    g' := Set(g, x, y, s[i] == '#');
  }

  /** What the next character says about the rows of the whole text: a `|` ends row y
      of the text as read so far, a cell lies within row y of the text. */
  lemma ScanAhead(s: string, i: nat, x: nat, y: nat, width: nat)
    requires i < |s| && RowsRead(s[..i], x, width) && y == |Rows(s[..i])| - 1
    ensures s[i] == '|' ==> y + 1 < |Rows(s)| && |Rows(s)[y]| == x
    ensures IsCellChar(s[i]) ==> y < |Rows(s)| && x < |Rows(s)[y]|
    ensures !(s[i] == '|' || IsCellChar(s[i])) ==> !InNotation(s)
  {
    RowsOfPrefix(s, i + 1);
    var p := s[..i + 1];
    assert p[..i] == s[..i];
    if s[i] == '|' {
      assert Rows(p) == Rows(s[..i]) + [[]];
      assert Rows(p)[y] == Rows(s[..i])[y] == Rows(s)[y];
    } else if IsCellChar(s[i]) {
      var r := Rows(s[..i]);
      assert Rows(p) == r[..|r| - 1] + [r[|r| - 1] + [s[i]]];
    }
  }

  /** A short text never reaches a bit or a row number that panics; in a text whose rows
      fit the grid the next cell is inside it. */
  lemma ScanBounds(s: string, i: nat, g: Grid, x: nat, y: nat, width: nat, height: nat)
    requires Scanning(s, i, g, x, y, width, height) && i < |s|
    ensures |s| <= 64 ==> y < 255 && Index(width, x, y) < 64
    ensures Regular(s, width, height) ==> s[i] == '|' || IsCellChar(s[i])
    ensures Regular(s, width, height) && s[i] == '|' ==> x == width && y + 1 < height
    ensures Regular(s, width, height) && IsCellChar(s[i]) ==> x < width && Index(width, x, y) < Area(width, height)
  {
    ScanAhead(s, i, x, y, width);
    if Regular(s, width, height) && IsCellChar(s[i]) {
      IndexBound(width, height, x, y);
    }
  }

  /** The loop stops early only at a character outside the notation or at a row of the
      wrong length. */
  lemma ScanRejects(s: string, i: nat, g: Grid, x: nat, y: nat, width: nat, height: nat)
    requires Scanning(s, i, g, x, y, width, height) && i < |s|
    requires s[i] == '|' ==> x != width
    requires s[i] != '|' ==> !IsCellChar(s[i])
    ensures !InNotation(s) || !FullRows(Rows(s), width)
  {
    ScanAhead(s, i, x, y, width);
  }

  /** The `for chr in input.chars()` loop of `parse`, writing into the empty grid of the
      given size. A `|` ends a row when `x == width` and stops the loop otherwise; `.` and
      `#` are written at (x, y); any other character stops the loop. The row counter `y`
      is a u8 and `set` shifts by width * y + x, so both can panic. */
  method ScanCells(s: string, width: U8, height: U8) returns (r: Run<Scan>)
    requires Fits(width, height)
    ensures r.Returns? && r.value.Scanned? ==> ScannedAs(s, r.value.grid, r.value.x, width, height)
    ensures r == Returns(Rejected) ==> !InNotation(s) || !FullRows(Rows(s), width)
    ensures Regular(s, width, height) ==> r.Returns? && r.value.Scanned?
    ensures |s| <= 64 ==> r.Returns?
  {
    var g := Grid(width, height, 0);
    var x: nat := 0;
    var y: U8 := 0;
    var i := 0;
    ScanStart(s, width, height);
    while i < |s|
      invariant Scanning(s, i, g, x, y, width, height)
    {
      var c := s[i];
      ScanBounds(s, i, g, x, y, width, height);
      if c == '|' {
        if x != width {
          ScanRejects(s, i, g, x, y, width, height);
          return Returns(Rejected);
        }
        if y == 255 {
          return Panics;
        }
        ScanBar(s, i, g, x, y, width, height);
        x := 0;
        y := y + 1;
      } else if IsCellChar(c) {
        if Index(width, x, y) >= 64 {
          return Panics;
        }
        g := WriteCell(s, i, g, x, y, width, height);
        x := x + 1;
      } else {
        ScanRejects(s, i, g, x, y, width, height);
        return Returns(Rejected);
      }
      i := i + 1;
    }
    assert s[..i] == s;
    return Returns(Scanned(g, x));
  }

  /** A text read to the end with a full last row: every row has `width` cells, the grid
      holds them all and no bit past them is set. */
  lemma ScannedFull(s: string, g: Grid, width: nat, height: nat)
    requires ScannedAs(s, g, width, width, height) && height == |Rows(s)|
    ensures forall j :: 0 <= j < |Rows(s)| ==> |Rows(s)[j]| == width
    ensures forall x: nat, y: nat :: x < width && y < height ==> Get(g, x, y) == (Rows(s)[y][x] == '#')
    ensures NoStrayBits(g)
  {
    assert Area(width, height) == Index(width, width, height - 1);
  }

  /** The sizes `parse` computes for a well-formed text are its true sizes. */
  lemma WellFormedSizes(s: string)
    requires WellFormed(s)
    ensures Bars(s) <= 254 && Bars(s) % 256 == Bars(s)
    ensures |Rows(s)[0]| < 256 && FirstRowWidth(s) == |Rows(s)[0]|
    ensures Fits(|Rows(s)[0]|, Bars(s) + 1) && Regular(s, |Rows(s)[0]|, Bars(s) + 1)
  {
    var rows := Rows(s);
    AreaMonotone(|rows[0]|, 1, |rows|);
    ModOfSmall(Bars(s), 256);
    ModOfSmall(|rows[0]|, 256);
    FirstRowOfNotation(s);
  }

  /** A text the loop reads to the end with a full last row, with the sizes `parse`
      computes, is well formed and the grid holds its cells. */
  lemma ScannedWellFormed(s: string, g: Grid, width: U8, height: U8)
    requires ScannedAs(s, g, width, width, height)
    requires width == FirstRowWidth(s) && Bars(s) % 256 != 255 && height == Bars(s) % 256 + 1
    requires Fits(width, height)
    ensures WellFormed(s) && Matches(g, s) && NoStrayBits(g) && Render(g) == s
  {
    var rows := Rows(s);
    ModOfSmall(Bars(s), 256);
    FirstRowOfNotation(s);
    assert |rows| == height;
    ScannedFull(s, g, width, height);
    assert |rows[0]| == width;
    RenderMatches(g, s);
  }

  // ---------------------------------------------------------------------------------
  // Rotation and flips

  /** Bit n < width * height of a grid is the cell (n % width, n / width). */
  lemma CellOfIndex(width: nat, height: nat, n: nat)
    requires n < Area(width, height)
    ensures width > 0 && n % width < width && n / width < height
    ensures Index(width, n % width, n / width) == n
  {
    AreaIsProduct(width, height);
    assert width != 0 by {
      assert width == 0 ==> width * height == 0;
    }
    var q, r := n / width, n % width;
    assert n == width * q + r;
    AreaIsProduct(width, q);
    AreaBelow(width, q, height);
  }

  /** A row that starts before the end of the grid is one of its rows. */
  lemma AreaBelow(width: nat, y: nat, height: nat)
    requires Area(width, y) < Area(width, height)
    ensures y < height
  {
    if height <= y {
      AreaMonotone(width, height, y);
    }
  }

  /** Two grids of the same size with the same cells and the same bits outside the
      cells are equal. */
  lemma GridsEqual(a: Grid, b: Grid)
    requires Valid(a) && SameCells(a, b) && SameStrayBits(a, b)
    ensures a == b
  {
    forall n | Area(a.width, a.height) <= n < 64 ensures Bit(a.grid, n) == Bit(b.grid, n) {
    }
    forall n | 0 <= n < Area(a.width, a.height) ensures Bit(a.grid, n) == Bit(b.grid, n) {
      CellOfIndex(a.width, a.height, n);
      var x, y := n % a.width, n / a.width;
      assert Get(a, x, y) == Get(b, x, y);
    }
    SameBits(a.grid, b.grid);
  }

  /** The bits that stand for no cell are the same in both grids. */
  predicate SameStrayBits(a: Grid, b: Grid)
  {
    forall n :: Area(a.width, a.height) <= n < 64 ==> Bit(a.grid, n) == Bit(b.grid, n)
  }

  /** `r` is `g` turned 90 degrees clockwise: the dimensions swap and cell (x, y) of `g`
      is cell (height - 1 - y, x) of `r`. */
  predicate IsRotation(g: Grid, r: Grid)
  {
    r.width == g.height && r.height == g.width
    && forall x: nat, y: nat :: x < g.width && y < g.height ==> Get(r, g.height - 1 - y, x) == Get(g, x, y)
  }

  /** `r` is `g` mirrored left to right: cell (x, y) of `g` is cell (width - 1 - x, y). */
  predicate IsVerticalFlip(g: Grid, r: Grid)
  {
    r.width == g.width && r.height == g.height
    && forall x: nat, y: nat :: x < g.width && y < g.height ==> Get(r, g.width - 1 - x, y) == Get(g, x, y)
  }

  /** `r` is `g` mirrored top to bottom: cell (x, y) of `g` is cell (x, height - 1 - y). */
  predicate IsHorizontalFlip(g: Grid, r: Grid)
  {
    r.width == g.width && r.height == g.height
    && forall x: nat, y: nat :: x < g.width && y < g.height ==> Get(r, x, g.height - 1 - y) == Get(g, x, y)
  }

  /** `rotate`: writes every cell of `g` into the empty grid of swapped dimensions. */
  method Rotate(g: Grid) returns (result: Grid)
    requires Valid(g)
    ensures IsRotation(g, result) && Valid(result) && NoStrayBits(result)
  {
    AreaCommutes(g.width, g.height);
    result := Grid(g.height, g.width, 0);
    forall n | 0 <= n < 64 ensures !Bit(result.grid, n) {
      ZeroBit(n);
    }
    for y: nat := 0 to g.height
      invariant result.width == g.height && result.height == g.width && NoStrayBits(result)
      invariant forall x': nat, y': nat :: x' < g.width && y' < y ==>
        Get(result, g.height - 1 - y', x') == Get(g, x', y')
    {
      for x: nat := 0 to g.width
        invariant result.width == g.height && result.height == g.width && NoStrayBits(result)
        invariant forall x': nat, y': nat :: x' < g.width && (y' < y || (y' == y && x' < x)) ==>
          Get(result, g.height - 1 - y', x') == Get(g, x', y')
      {
        IndexBound(result.width, result.height, result.width - y - 1, x);
        GetSet(result, result.width - y - 1, x, Get(g, x, y));
        result := Set(result, result.width - y - 1, x, Get(g, x, y));
      }
    }
  }

  /** `vertical_flip`: writes cell (x, y) of `g` to (width - 1 - x, y) of a grid that
      starts as `start`. Every cell is written, so only the bits outside the cells
      remain those of `start`. */
  method VerticalFlipOnto(g: Grid, start: Grid) returns (result: Grid)
    requires Valid(g) && start.width == g.width && start.height == g.height
    ensures IsVerticalFlip(g, result) && SameStrayBits(result, start)
  {
    result := start;
    for y: nat := 0 to g.height
      invariant result.width == g.width && result.height == g.height && SameStrayBits(result, start)
      invariant forall x': nat, y': nat :: x' < g.width && y' < y ==>
        Get(result, g.width - 1 - x', y') == Get(g, x', y')
    {
      for x: nat := 0 to g.width
        invariant result.width == g.width && result.height == g.height && SameStrayBits(result, start)
        invariant forall x': nat, y': nat :: x' < g.width && (y' < y || (y' == y && x' < x)) ==>
          Get(result, g.width - 1 - x', y') == Get(g, x', y')
      {
        IndexBound(result.width, result.height, result.width - x - 1, y);
        GetSet(result, result.width - x - 1, y, Get(g, x, y));
        result := Set(result, result.width - x - 1, y, Get(g, x, y));
      }
    }
  }

  /** `horizontal_flip`: writes cell (x, y) of `g` to (x, height - 1 - y) of a grid that
      starts as `start`. */
  method HorizontalFlipOnto(g: Grid, start: Grid) returns (result: Grid)
    requires Valid(g) && start.width == g.width && start.height == g.height
    ensures IsHorizontalFlip(g, result) && SameStrayBits(result, start)
  {
    result := start;
    for y: nat := 0 to g.height
      invariant result.width == g.width && result.height == g.height && SameStrayBits(result, start)
      invariant forall x': nat, y': nat :: x' < g.width && y' < y ==>
        Get(result, x', g.height - 1 - y') == Get(g, x', y')
    {
      for x: nat := 0 to g.width
        invariant result.width == g.width && result.height == g.height && SameStrayBits(result, start)
        invariant forall x': nat, y': nat :: x' < g.width && (y' < y || (y' == y && x' < x)) ==>
          Get(result, x', g.height - 1 - y') == Get(g, x', y')
      {
        IndexBound(result.width, result.height, x, result.height - y - 1);
        GetSet(result, x, result.height - y - 1, Get(g, x, y));
        result := Set(result, x, result.height - y - 1, Get(g, x, y));
      }
    }
  }

  /** A grid with the same size and cells as `a`. */
  predicate SameCells(a: Grid, c: Grid)
  {
    c.width == a.width && c.height == a.height
    && forall x: nat, y: nat :: x < a.width && y < a.height ==> Get(c, x, y) == Get(a, x, y)
  }

  /** Mirroring left to right twice gives back every cell. */
  lemma VerticalFlipBack(a: Grid, b: Grid, c: Grid)
    requires IsVerticalFlip(a, b) && IsVerticalFlip(b, c)
    ensures SameCells(a, c)
  {
    forall x: nat, y: nat | x < a.width && y < a.height ensures Get(c, x, y) == Get(a, x, y) {
      VerticalFlipCell(a, b, c, x, y);
    }
  }

  lemma VerticalFlipCell(a: Grid, b: Grid, c: Grid, x: nat, y: nat)
    requires IsVerticalFlip(a, b) && IsVerticalFlip(b, c) && x < a.width && y < a.height
    ensures Get(c, x, y) == Get(a, x, y)
  {
    var x': nat := a.width - 1 - x;
    assert Get(b, x', y) == Get(a, x, y);
    assert Get(c, b.width - 1 - x', y) == Get(b, x', y);
  }

  /** Mirroring top to bottom twice gives back every cell. */
  lemma HorizontalFlipBack(a: Grid, b: Grid, c: Grid)
    requires IsHorizontalFlip(a, b) && IsHorizontalFlip(b, c)
    ensures SameCells(a, c)
  {
    forall x: nat, y: nat | x < a.width && y < a.height ensures Get(c, x, y) == Get(a, x, y) {
      HorizontalFlipCell(a, b, c, x, y);
    }
  }

  lemma HorizontalFlipCell(a: Grid, b: Grid, c: Grid, x: nat, y: nat)
    requires IsHorizontalFlip(a, b) && IsHorizontalFlip(b, c) && x < a.width && y < a.height
    ensures Get(c, x, y) == Get(a, x, y)
  {
    var y': nat := a.height - 1 - y;
    assert Get(b, x, y') == Get(a, x, y);
    assert Get(c, x, b.height - 1 - y') == Get(b, x, y');
  }

  /** Mirroring twice with the stray bits of the original kept gives back the grid. */
  lemma VerticalFlipTwice(a: Grid, b: Grid, c: Grid)
    requires Valid(a) && IsVerticalFlip(a, b) && IsVerticalFlip(b, c)
    requires SameStrayBits(c, a)
    ensures c == a
  {
    VerticalFlipBack(a, b, c);
    GridsEqual(a, c);
  }

  lemma HorizontalFlipTwice(a: Grid, b: Grid, c: Grid)
    requires Valid(a) && IsHorizontalFlip(a, b) && IsHorizontalFlip(b, c)
    requires SameStrayBits(c, a)
    ensures c == a
  {
    HorizontalFlipBack(a, b, c);
    GridsEqual(a, c);
  }

  /** Two quarter turns are a half turn: cell (x, y) goes to (width - 1 - x, height - 1 - y). */
  lemma RotateTwice(a: Grid, b: Grid, c: Grid)
    requires IsRotation(a, b) && IsRotation(b, c)
    ensures c.width == a.width && c.height == a.height
    ensures forall x: nat, y: nat :: x < a.width && y < a.height ==>
      Get(c, a.width - 1 - x, a.height - 1 - y) == Get(a, x, y)
  {
    forall x: nat, y: nat | x < a.width && y < a.height
      ensures Get(c, a.width - 1 - x, a.height - 1 - y) == Get(a, x, y)
    {
      RotateTwiceCell(a, b, c, x, y);
    }
  }

  lemma RotateTwiceCell(a: Grid, b: Grid, c: Grid, x: nat, y: nat)
    requires IsRotation(a, b) && IsRotation(b, c) && x < a.width && y < a.height
    ensures Get(c, a.width - 1 - x, a.height - 1 - y) == Get(a, x, y)
  {
    var y': nat := a.height - 1 - y;
    assert Get(b, y', x) == Get(a, x, y);
    assert Get(c, b.height - 1 - x, y') == Get(b, y', x);
  }

  /** Four quarter turns give back every cell. */
  lemma RotateBack(a: Grid, b: Grid, c: Grid, d: Grid, e: Grid)
    requires IsRotation(a, b) && IsRotation(b, c) && IsRotation(c, d) && IsRotation(d, e)
    ensures SameCells(a, e)
  {
    RotateTwice(a, b, c);
    RotateTwice(c, d, e);
    forall x: nat, y: nat | x < a.width && y < a.height ensures Get(e, x, y) == Get(a, x, y) {
      RotateTwiceCell(a, b, c, a.width - 1 - x, a.height - 1 - y);
      RotateTwiceCell(c, d, e, x, y);
    }
  }

  /** Four quarter turns of a grid with no stray bits give it back. */
  lemma RotateFourTimes(a: Grid, b: Grid, c: Grid, d: Grid, e: Grid)
    requires Valid(a) && NoStrayBits(a) && NoStrayBits(e)
    requires IsRotation(a, b) && IsRotation(b, c) && IsRotation(c, d) && IsRotation(d, e)
    ensures e == a
  {
    RotateBack(a, b, c, d, e);
    GridsEqual(a, e);
  }
}
