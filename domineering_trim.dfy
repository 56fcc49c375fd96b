/** Counting the free places of a Domineering `Position` and trimming its filled edges
    (`free_places` and `move_top_left` in src/domineering.rs). */
module DomineeringTrim {
  import opened Bits
  import opened BitGrid

  // ---------------------------------------------------------------------------------
  // Free places

  /** The cells (x, y) with x < width and y < height. */
  function AllCells(width: nat, height: nat): (r: set<(nat, nat)>)
    ensures forall p :: p in r <==> p.0 < width && p.1 < height
  {
    var r := set x: nat, y: nat | x < width && y < height :: (x, y);
    assert forall p: (nat, nat) :: p.0 < width && p.1 < height ==> p in r by {
      forall p: (nat, nat) | p.0 < width && p.1 < height ensures p in r {
        assert p == (p.0, p.1);
      }
    }
    r
  }

  /** The free cells of a position, as a set of (x, y) pairs. */
  function FreeCells(g: Grid): set<(nat, nat)>
  {
    set p | p in AllCells(g.width, g.height) && !Get(g, p.0, p.1)
  }

  /** The number of free cells x < n in row y, counted left to right. */
  function FreeInRow(g: Grid, y: nat, n: nat): nat
  {
    if n == 0 then 0 else FreeInRow(g, y, n - 1) + (if Get(g, n - 1, y) then 0 else 1)
  }

  /** The number of free cells in the rows y < m, counted row by row. */
  function FreeInRows(g: Grid, m: nat): nat
  {
    if m == 0 then 0 else FreeInRows(g, m - 1) + FreeInRow(g, m - 1, g.width)
  }

  /** The count `free_places` computes: the free cells row by row. */
  function FreeCount(g: Grid): nat
  {
    FreeInRows(g, g.height)
  }

  /** `free_places`: one increment per free cell met in row-major order. */
  method FreePlaces(g: Grid) returns (res: nat)
    ensures res == FreeCount(g) && res == |FreeCells(g)|
  {
    res := 0;
    for y: nat := 0 to g.height
      invariant res == FreeInRows(g, y)
    {
      for x: nat := 0 to g.width
        invariant res == FreeInRows(g, y) + FreeInRow(g, y, x)
      {
        if !Get(g, x, y) {
          res := res + 1;
        }
      }
    }
    FreeCountIsCells(g);
  }

  /** The free cells x < n of row y. */
  function RowCells(g: Grid, y: nat, n: nat): set<(nat, nat)>
  {
    set p | p in AllCells(n, y + 1) && p.1 == y && !Get(g, p.0, p.1)
  }

  /** The free cells of the rows y < m. */
  function RowsCells(g: Grid, m: nat): set<(nat, nat)>
  {
    set p | p in AllCells(g.width, m) && !Get(g, p.0, p.1)
  }

  /** Row y up to n + 1 is row y up to n and, when it is free, cell (n, y). */
  lemma RowCellsSplit(g: Grid, y: nat, n: nat)
    ensures forall p :: p in RowCells(g, y, n + 1) <==> p in RowCells(g, y, n) || (p == (n, y) && !Get(g, n, y))
  {
    forall p | p in RowCells(g, y, n + 1) && p.0 < n ensures p in RowCells(g, y, n) {
    }
  }

  /** Row y up to n + 1 adds cell (n, y) when it is free. */
  lemma RowCellsSnoc(g: Grid, y: nat, n: nat)
    ensures |RowCells(g, y, n + 1)| == |RowCells(g, y, n)| + (if Get(g, n, y) then 0 else 1)
  {
    RowCellsSplit(g, y, n);
    var cell: (nat, nat) := (n, y);
    if Get(g, n, y) {
      assert RowCells(g, y, n + 1) == RowCells(g, y, n);
    } else {
      assert RowCells(g, y, n + 1) == RowCells(g, y, n) + {cell};
    }
  }

  lemma {:induction false} RowCount(g: Grid, y: nat, n: nat)
    ensures |RowCells(g, y, n)| == FreeInRow(g, y, n)
  {
    if n == 0 {
      assert RowCells(g, y, n) == {};
    } else {
      RowCount(g, y, n - 1);
      RowCellsSnoc(g, y, n - 1);
    }
  }

  /** The rows up to m + 1 add the free cells of row m, which are new. */
  lemma RowsCellsSnoc(g: Grid, m: nat)
    ensures |RowsCells(g, m + 1)| == |RowsCells(g, m)| + |RowCells(g, m, g.width)|
  {
    var before, row := RowsCells(g, m), RowCells(g, m, g.width);
    forall p | p in RowsCells(g, m + 1) ensures p in before + row {
      if p.1 < m {
        assert p in before;
      } else {
        assert p in row;
      }
    }
    forall p | p in before + row ensures p in RowsCells(g, m + 1) {
    }
    forall p | p in row ensures p !in before {
    }
    assert RowsCells(g, m + 1) == before + row;
    assert before * row == {};
  }

  lemma {:induction false} RowsCount(g: Grid, m: nat)
    ensures |RowsCells(g, m)| == FreeInRows(g, m)
  {
    if m == 0 {
      forall p | p in RowsCells(g, m) ensures false {
      }
    } else {
      RowsCount(g, m - 1);
      RowCount(g, m - 1, g.width);
      RowsCellsSnoc(g, m - 1);
    }
  }

  /** The row-by-row count is the number of free cells. */
  lemma FreeCountIsCells(g: Grid)
    ensures FreeCount(g) == |FreeCells(g)|
  {
    RowsCount(g, g.height);
    assert RowsCells(g, g.height) == FreeCells(g);
  }

  /** Filling a cell removes it from the free cells and changes no other cell. */
  lemma FillCellCells(g: Grid, x: nat, y: nat)
    requires InGrid(g, x, y) && Index(g.width, x, y) < 64
    ensures FreeCells(Set(g, x, y, true)) == FreeCells(g) - {(x, y)}
  {
    GetSet(g, x, y, true);
    var after := Set(g, x, y, true);
    forall p | p in FreeCells(g) - {(x, y)} ensures p in FreeCells(after) {
      assert Get(after, p.0, p.1) == Get(g, p.0, p.1);
    }
  }

  /** Filling a free cell leaves one free cell fewer; filling a filled one changes nothing. */
  lemma FillCell(g: Grid, x: nat, y: nat)
    requires InGrid(g, x, y) && Index(g.width, x, y) < 64
    ensures |FreeCells(Set(g, x, y, true))| == |FreeCells(g)| - (if Get(g, x, y) then 0 else 1)
  {
    FillCellCells(g, x, y);
    var c: (nat, nat) := (x, y);
    assert c in FreeCells(g) <==> !Get(g, x, y);
  }

  // ---------------------------------------------------------------------------------
  // Filled edges

  predicate RowFull(g: Grid, y: nat)
  {
    forall x: nat :: x < g.width ==> Get(g, x, y)
  }

  predicate ColFull(g: Grid, x: nat)
  {
    forall y: nat :: y < g.height ==> Get(g, x, y)
  }

  /** The number of consecutive full rows from row y downwards. */
  function FullRowsFrom(g: Grid, y: nat): nat
    decreases g.height - y
  {
    if y < g.height && RowFull(g, y) then 1 + FullRowsFrom(g, y + 1) else 0
  }

  /** The number of consecutive full rows from row height - 1 - k upwards. */
  function FullRowsUp(g: Grid, k: nat): nat
    decreases g.height - k
  {
    if k < g.height && RowFull(g, g.height - 1 - k) then 1 + FullRowsUp(g, k + 1) else 0
  }

  /** The number of consecutive full columns from column x rightwards. */
  function FullColsFrom(g: Grid, x: nat): nat
    decreases g.width - x
  {
    if x < g.width && ColFull(g, x) then 1 + FullColsFrom(g, x + 1) else 0
  }

  /** The number of consecutive full columns from column width - 1 - k leftwards. */
  function FullColsUp(g: Grid, k: nat): nat
    decreases g.width - k
  {
    if k < g.width && ColFull(g, g.width - 1 - k) then 1 + FullColsUp(g, k + 1) else 0
  }

  function TopRows(g: Grid): nat { FullRowsFrom(g, 0) }
  function BottomRows(g: Grid): nat { FullRowsUp(g, 0) }
  function LeftCols(g: Grid): nat { FullColsFrom(g, 0) }
  function RightCols(g: Grid): nat { FullColsUp(g, 0) }

  lemma {:induction false} FullRowsFromMeaning(g: Grid, y: nat)
    requires y <= g.height
    ensures y + FullRowsFrom(g, y) <= g.height
    ensures forall k: nat :: y <= k < y + FullRowsFrom(g, y) ==> RowFull(g, k)
    ensures y + FullRowsFrom(g, y) < g.height ==> !RowFull(g, y + FullRowsFrom(g, y))
    decreases g.height - y
  {
    if y < g.height && RowFull(g, y) {
      FullRowsFromMeaning(g, y + 1);
    }
  }

  lemma {:induction false} FullRowsUpMeaning(g: Grid, k: nat)
    requires k <= g.height
    ensures k + FullRowsUp(g, k) <= g.height
    ensures forall y: nat :: g.height - k - FullRowsUp(g, k) <= y < g.height - k ==> RowFull(g, y)
    ensures k + FullRowsUp(g, k) < g.height ==> !RowFull(g, g.height - 1 - k - FullRowsUp(g, k))
    decreases g.height - k
  {
    if k < g.height && RowFull(g, g.height - 1 - k) {
      FullRowsUpMeaning(g, k + 1);
    }
  }

  lemma {:induction false} FullColsFromMeaning(g: Grid, x: nat)
    requires x <= g.width
    ensures x + FullColsFrom(g, x) <= g.width
    ensures forall k: nat :: x <= k < x + FullColsFrom(g, x) ==> ColFull(g, k)
    ensures x + FullColsFrom(g, x) < g.width ==> !ColFull(g, x + FullColsFrom(g, x))
    decreases g.width - x
  {
    if x < g.width && ColFull(g, x) {
      FullColsFromMeaning(g, x + 1);
    }
  }

  lemma {:induction false} FullColsUpMeaning(g: Grid, k: nat)
    requires k <= g.width
    ensures k + FullColsUp(g, k) <= g.width
    ensures forall x: nat :: g.width - k - FullColsUp(g, k) <= x < g.width - k ==> ColFull(g, x)
    ensures k + FullColsUp(g, k) < g.width ==> !ColFull(g, g.width - 1 - k - FullColsUp(g, k))
    decreases g.width - k
  {
    if k < g.width && ColFull(g, g.width - 1 - k) {
      FullColsUpMeaning(g, k + 1);
    }
  }

  /** The four edge counts: each counts full rows (or columns) from its edge and stops at
      the first one that is not full. */
  lemma EdgesMeaning(g: Grid)
    ensures TopRows(g) <= g.height && BottomRows(g) <= g.height
    ensures LeftCols(g) <= g.width && RightCols(g) <= g.width
    ensures forall y: nat :: y < TopRows(g) ==> RowFull(g, y)
    ensures TopRows(g) < g.height ==> !RowFull(g, TopRows(g))
    ensures forall y: nat :: g.height - BottomRows(g) <= y < g.height ==> RowFull(g, y)
    ensures BottomRows(g) < g.height ==> !RowFull(g, g.height - 1 - BottomRows(g))
    ensures forall x: nat :: x < LeftCols(g) ==> ColFull(g, x)
    ensures LeftCols(g) < g.width ==> !ColFull(g, LeftCols(g))
    ensures forall x: nat :: g.width - RightCols(g) <= x < g.width ==> ColFull(g, x)
    ensures RightCols(g) < g.width ==> !ColFull(g, g.width - 1 - RightCols(g))
  {
    FullRowsFromMeaning(g, 0);
    FullRowsUpMeaning(g, 0);
    FullColsFromMeaning(g, 0);
    FullColsUpMeaning(g, 0);
  }

  /** Every row is full exactly when there is no free cell, and so is every column. */
  lemma AllFilled(g: Grid)
    ensures TopRows(g) == g.height <==> FreeCells(g) == {}
    ensures LeftCols(g) == g.width <==> FreeCells(g) == {}
  {
    EdgesMeaning(g);
    if TopRows(g) < g.height {
      var x: nat :| x < g.width && !Get(g, x, TopRows(g));
      assert (x, TopRows(g)) in FreeCells(g);
    }
    if LeftCols(g) < g.width {
      var y: nat :| y < g.height && !Get(g, LeftCols(g), y);
      assert (LeftCols(g), y) in FreeCells(g);
    }
    if FreeCells(g) != {} {
      var p :| p in FreeCells(g);
      assert !RowFull(g, p.1);
      assert !ColFull(g, p.0);
    }
  }

  /** With a free cell left, the full edges leave at least one row and one column, and
      every free cell lies between them. */
  lemma FreeInside(g: Grid)
    requires FreeCells(g) != {}
    ensures TopRows(g) + BottomRows(g) < g.height && LeftCols(g) + RightCols(g) < g.width
    ensures forall p :: p in FreeCells(g) ==>
      TopRows(g) <= p.1 < g.height - BottomRows(g) && LeftCols(g) <= p.0 < g.width - RightCols(g)
  {
    EdgesMeaning(g);
    forall p | p in FreeCells(g)
      ensures TopRows(g) <= p.1 < g.height - BottomRows(g) && LeftCols(g) <= p.0 < g.width - RightCols(g)
    {
      assert !RowFull(g, p.1);
      assert !ColFull(g, p.0);
    }
    var p :| p in FreeCells(g);
  }

  // ---------------------------------------------------------------------------------
  // move_top_left

  /** `c` is `g` with its full top, bottom, left and right edges removed. When every row
      (equivalently every column) is full the result is the 0 by 0 position; otherwise
      it is the remaining rectangle copied into an empty grid, so that it has no stray
      bits. */
  predicate Trimmed(g: Grid, c: Grid)
  {
    var t, b, l, r := TopRows(g), BottomRows(g), LeftCols(g), RightCols(g);
    if t == g.height || l == g.width then c == Grid(0, 0, 0)
    else
      c.width + l + r == g.width && c.height + t + b == g.height && NoStrayBits(c)
      && CropOf(g, c, l, t)
  }

  /** Cell (x, y) of `c` is cell (x + l, y + t) of `g`. */
  predicate CropOf(g: Grid, c: Grid, l: nat, t: nat)
  {
    c.width + l <= g.width && c.height + t <= g.height
    && forall x: nat, y: nat :: x < c.width && y < c.height ==> Get(c, x, y) == Get(g, x + l, y + t)
  }

  /** The inner `for x` loop of the row counts: is row y full? */
  method RowIsFull(g: Grid, y: nat) returns (full: bool)
    ensures full == RowFull(g, y)
  {
    full := true;
    for x: nat := 0 to g.width
      invariant forall x': nat :: x' < x ==> Get(g, x', y)
    {
      if !Get(g, x, y) {
        full := false;
        break;
      }
    }
  }

  /** The inner `for y` loop of the column counts: is column x full? */
  method ColIsFull(g: Grid, x: nat) returns (full: bool)
    ensures full == ColFull(g, x)
  {
    full := true;
    for y: nat := 0 to g.height
      invariant forall y': nat :: y' < y ==> Get(g, x, y')
    {
      if !Get(g, x, y) {
        full := false;
        break;
      }
    }
  }

  /** `filled_top_rows`. */
  method CountTop(g: Grid) returns (top: nat)
    ensures top == TopRows(g)
  {
    top := 0;
    for y: nat := 0 to g.height
      invariant top == y && TopRows(g) == top + FullRowsFrom(g, y)
    {
      var full := RowIsFull(g, y);
      if !full {
        break;
      }
      top := top + 1;
    }
  }

  /** `filled_bottom_rows`. */
  method CountBottom(g: Grid) returns (bottom: nat)
    ensures bottom == BottomRows(g)
  {
    bottom := 0;
    for y: nat := 0 to g.height
      invariant bottom == y && BottomRows(g) == bottom + FullRowsUp(g, y)
    {
      var full := RowIsFull(g, g.height - y - 1);
      if !full {
        break;
      }
      bottom := bottom + 1;
    }
  }

  /** `filled_left_cols`. */
  method CountLeft(g: Grid) returns (left: nat)
    ensures left == LeftCols(g)
  {
    left := 0;
    for x: nat := 0 to g.width
      invariant left == x && LeftCols(g) == left + FullColsFrom(g, x)
    {
      var full := ColIsFull(g, x);
      if !full {
        break;
      }
      left := left + 1;
    }
  }

  /** `filled_right_cols`. */
  method CountRight(g: Grid) returns (right: nat)
    ensures right == RightCols(g)
  {
    right := 0;
    for x: nat := 0 to g.width
      invariant right == x && RightCols(g) == right + FullColsUp(g, x)
    {
      var full := ColIsFull(g, g.width - x - 1);
      if !full {
        break;
      }
      right := right + 1;
    }
  }

  /** A smaller rectangle fits when the larger one does. */
  lemma FitsSmaller(w: nat, h: nat, w': nat, h': nat)
    requires Fits(w', h') && w <= w' && h <= h'
    ensures Fits(w, h)
  {
    AreaMonotone(w, h, h');
    AreaCommutes(w, h');
    AreaMonotone(h', w, w');
    AreaCommutes(h', w');
  }

  /** The copy loop of `move_top_left`: cell (x, y) of the result is cell
      (x + left, y + top) of `g`, written into an empty grid. */
  method Crop(g: Grid, top: nat, bottom: nat, left: nat, right: nat) returns (c: Grid)
    requires Valid(g) && top + bottom <= g.height && left + right <= g.width
    ensures c.width + left + right == g.width && c.height + top + bottom == g.height
    ensures Valid(c) && NoStrayBits(c)
    ensures forall x: nat, y: nat :: x < c.width && y < c.height ==> Get(c, x, y) == Get(g, x + left, y + top)
  {
    var cw: U8 := g.width - left - right;
    var ch: U8 := g.height - top - bottom;
    FitsSmaller(cw, ch, g.width, g.height);
    c := Grid(cw, ch, 0);
    AllBitsOfMaxAndZero();
    for y: nat := top to g.height - bottom
      invariant c.width == cw && c.height == ch && NoStrayBits(c)
      invariant forall x': nat, y': nat :: x' < cw && y' + top < y ==> Get(c, x', y') == Get(g, x' + left, y' + top)
    {
      for x: nat := left to g.width - right
        invariant c.width == cw && c.height == ch && NoStrayBits(c)
        invariant forall x': nat, y': nat :: x' < cw && (y' + top < y || (y' + top == y && x' + left < x)) ==>
          Get(c, x', y') == Get(g, x' + left, y' + top)
      {
        IndexBound(cw, ch, x - left, y - top);
        GetSet(c, x - left, y - top, Get(g, x, y));
        c := Set(c, x - left, y - top, Get(g, x, y));
      }
    }
  }

  /** `move_top_left`: count the full edges (returning the 0 by 0 position as soon as
      all rows, or all columns, are full) and copy what is left. */
  method MoveTopLeft(g: Grid) returns (r: Grid)
    requires Valid(g)
    ensures Trimmed(g, r) && Valid(r)
  {
    var top := CountTop(g);
    if top == g.height {
      AllBitsOfMaxAndZero();
      return Grid(0, 0, 0);
    }
    var bottom := CountBottom(g);
    var left := CountLeft(g);
    if left == g.width {
      AllBitsOfMaxAndZero();
      return Grid(0, 0, 0);
    }
    var right := CountRight(g);
    AllFilled(g);
    FreeInside(g);
    r := Crop(g, top, bottom, left, right);
  }

  // ---------------------------------------------------------------------------------
  // What trimming keeps

  /** The cells (x, y) of a width by height rectangle whose cell (x + l, y + t) is in A. */
  function Shifted(A: set<(nat, nat)>, l: nat, t: nat, width: nat, height: nat): set<(nat, nat)>
  {
    set p | p in AllCells(width, height) && (p.0 + l, p.1 + t) in A
  }

  /** Taking one cell out of A takes its moved copy out of the moved set. */
  lemma ShiftedRemove(A: set<(nat, nat)>, p: (nat, nat), l: nat, t: nat, width: nat, height: nat)
    requires p in A && l <= p.0 < l + width && t <= p.1 < t + height
    ensures Shifted(A, l, t, width, height)
      == Shifted(A - {p}, l, t, width, height) + {((p.0 - l) as nat, (p.1 - t) as nat)}
    ensures ((p.0 - l) as nat, (p.1 - t) as nat) !in Shifted(A - {p}, l, t, width, height)
  {
    var q: (nat, nat) := ((p.0 - l) as nat, (p.1 - t) as nat);
    var S, S' := Shifted(A, l, t, width, height), Shifted(A - {p}, l, t, width, height);
    forall z | z in S ensures z in S' + {q} {
      if z != q {
        assert (z.0 + l, z.1 + t) != p;
      }
    }
    forall z | z in S' + {q} ensures z in S {
      if z == q {
        assert (z.0 + l, z.1 + t) == p;
      }
    }
  }

  /** Moving a set that lies inside the rectangle keeps its size. */
  lemma {:induction false} ShiftedSize(A: set<(nat, nat)>, l: nat, t: nat, width: nat, height: nat)
    requires forall p :: p in A ==> l <= p.0 < l + width && t <= p.1 < t + height
    ensures |Shifted(A, l, t, width, height)| == |A|
    decreases |A|
  {
    if A == {} {
      assert Shifted(A, l, t, width, height) == {};
    } else {
      var p :| p in A;
      ShiftedSize(A - {p}, l, t, width, height);
      ShiftedRemove(A, p, l, t, width, height);
    }
  }

  /** When every free cell of `g` lies in the cropped rectangle, the free cells of the
      crop are those of `g` moved by (l, t). */
  lemma CropCells(g: Grid, c: Grid, l: nat, t: nat)
    requires CropOf(g, c, l, t)
    requires forall p :: p in FreeCells(g) ==> l <= p.0 < l + c.width && t <= p.1 < t + c.height
    ensures FreeCells(c) == Shifted(FreeCells(g), l, t, c.width, c.height)
  {
    var S := Shifted(FreeCells(g), l, t, c.width, c.height);
    forall p | p in FreeCells(c) ensures p in S {
      assert Get(c, p.0, p.1) == Get(g, p.0 + l, p.1 + t);
    }
    forall p | p in S ensures p in FreeCells(c) {
      assert Get(c, p.0, p.1) == Get(g, p.0 + l, p.1 + t);
    }
  }

  /** Trimming keeps every free cell, so `free_places` is unchanged. */
  lemma TrimKeepsFree(g: Grid, c: Grid)
    requires Trimmed(g, c)
    ensures |FreeCells(c)| == |FreeCells(g)| && FreeCount(c) == FreeCount(g)
  {
    AllFilled(g);
    FreeCountIsCells(g);
    FreeCountIsCells(c);
    if FreeCells(g) == {} {
      assert FreeCells(c) == {};
    } else {
      FreeInside(g);
      CropCells(g, c, LeftCols(g), TopRows(g));
      ShiftedSize(FreeCells(g), LeftCols(g), TopRows(g), c.width, c.height);
    }
  }

  /** A trimmed position fits, and has a free cell unless it is the 0 by 0 position. */
  lemma TrimShape(g: Grid, c: Grid)
    requires Valid(g) && Trimmed(g, c)
    ensures Valid(c) && NoStrayBits(c)
    ensures c == Grid(0, 0, 0) <==> FreeCells(g) == {}
    ensures FreeCells(g) != {} ==> c.width >= 1 && c.height >= 1
  {
    AllFilled(g);
    AllBitsOfMaxAndZero();
    TrimKeepsFree(g, c);
    if FreeCells(g) != {} {
      FreeInside(g);
      FitsSmaller(c.width, c.height, g.width, g.height);
    }
  }

  /** Two trimmings of the same position are the same position. */
  lemma TrimUnique(g: Grid, c: Grid, c': Grid)
    requires Valid(g) && Trimmed(g, c) && Trimmed(g, c')
    ensures c == c'
  {
    TrimShape(g, c);
    TrimShape(g, c');
    if FreeCells(g) != {} {
      assert SameStrayBits(c, c');
      GridsEqual(c, c');
    }
  }

  /** The first and the last kept rows each hold a free cell, and that cell is in no
      full column. */
  lemma EdgeRowCells(g: Grid) returns (xt: nat, xb: nat)
    requires FreeCells(g) != {}
    ensures TopRows(g) + BottomRows(g) < g.height && LeftCols(g) + RightCols(g) < g.width
    ensures LeftCols(g) <= xt < g.width - RightCols(g) && !Get(g, xt, TopRows(g))
    ensures LeftCols(g) <= xb < g.width - RightCols(g) && !Get(g, xb, g.height - 1 - BottomRows(g))
  {
    AllFilled(g);
    FreeInside(g);
    EdgesMeaning(g);
    xt :| xt < g.width && !Get(g, xt, TopRows(g));
    assert (xt, TopRows(g)) in FreeCells(g);
    xb :| xb < g.width && !Get(g, xb, g.height - 1 - BottomRows(g));
    assert (xb, g.height - 1 - BottomRows(g)) in FreeCells(g);
  }

  /** The first and the last kept columns each hold a free cell, and that cell is in no
      full row. */
  lemma EdgeColCells(g: Grid) returns (yl: nat, yr: nat)
    requires FreeCells(g) != {}
    ensures TopRows(g) + BottomRows(g) < g.height && LeftCols(g) + RightCols(g) < g.width
    ensures TopRows(g) <= yl < g.height - BottomRows(g) && !Get(g, LeftCols(g), yl)
    ensures TopRows(g) <= yr < g.height - BottomRows(g) && !Get(g, g.width - 1 - RightCols(g), yr)
  {
    AllFilled(g);
    FreeInside(g);
    EdgesMeaning(g);
    yl :| yl < g.height && !Get(g, LeftCols(g), yl);
    assert (LeftCols(g), yl) in FreeCells(g);
    yr :| yr < g.height && !Get(g, g.width - 1 - RightCols(g), yr);
    assert (g.width - 1 - RightCols(g), yr) in FreeCells(g);
  }

  /** A crop of a position with free cells on all four edges has no full edge. */
  lemma CropEdges(g: Grid, c: Grid, l: nat, t: nat, xt: nat, xb: nat, yl: nat, yr: nat)
    requires CropOf(g, c, l, t) && c.width >= 1 && c.height >= 1
    requires l <= xt < l + c.width && !Get(g, xt, t)
    requires l <= xb < l + c.width && !Get(g, xb, t + c.height - 1)
    requires t <= yl < t + c.height && !Get(g, l, yl)
    requires t <= yr < t + c.height && !Get(g, l + c.width - 1, yr)
    ensures TopRows(c) == 0 && BottomRows(c) == 0 && LeftCols(c) == 0 && RightCols(c) == 0
  {
    assert !Get(c, xt - l, 0);
    assert !Get(c, xb - l, c.height - 1);
    assert !Get(c, 0, yl - t);
    assert !Get(c, c.width - 1, yr - t);
  }

  /** A trimmed position has no full edge left: trimming it again gives it back. */
  lemma TrimIdempotent(g: Grid, c: Grid)
    requires Valid(g) && Trimmed(g, c)
    ensures Trimmed(c, c)
  {
    TrimShape(g, c);
    if FreeCells(g) != {} {
      AllFilled(g);
      FreeInside(g);
      var xt, xb := EdgeRowCells(g);
      var yl, yr := EdgeColCells(g);
      CropEdges(g, c, LeftCols(g), TopRows(g), xt, xb, yl, yr);
    } else {
      AllBitsOfMaxAndZero();
    }
  }
}
