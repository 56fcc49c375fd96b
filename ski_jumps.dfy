/** Ski Jumps (src/short/partizan/games/ski_jumps.rs): skiers on a rectangular board.
    Left's skiers slide right and Right's slide left, along their row and off the board;
    a jumper may jump over an opposing skier directly below it, which turns that skier
    into a slipper. The board type (`VecGrid`) is not part of this model: it is a
    rectangle of rows with the same `get`, `set`, `width` and `height`. */
module SkiJumps {
  import opened Outcome

  datatype Skier = Jumper | Slipper

  datatype Tile = Empty | Left(skier: Skier) | Right(skier: Skier)

  /** `tile_to_char` */
  function TileToChar(t: Tile): (c: char)
    ensures c in ".LlRr"
  {
    match t
    case Empty => '.'
    case Left(Jumper) => 'L'
    case Left(Slipper) => 'l'
    case Right(Jumper) => 'R'
    case Right(Slipper) => 'r'
  }

  /** `char_to_tile`: a tile exactly for the five characters `.LlRr`, and then the tile
      that prints as the character. */
  function CharToTile(c: char): (r: Option<Tile>)
    ensures r.Some? <==> c in ".LlRr"
    ensures r.Some? ==> TileToChar(r.value) == c
  {
    match c
    case '.' => Some(Empty)
    case 'L' => Some(Left(Jumper))
    case 'l' => Some(Left(Slipper))
    case 'R' => Some(Right(Jumper))
    case 'r' => Some(Right(Slipper))
    case _ => None
  }

  /** Printing a tile and reading it back gives the tile. */
  lemma TileRoundTrip(t: Tile)
    ensures CharToTile(TileToChar(t)) == Some(t)
  {
  }

  // ---------------------------------------------------------------------------------
  // The board

  /** Rows of tiles: `rows[y][x]` is the tile at (x, y). */
  datatype Board = Board(width: nat, height: nat, rows: seq<seq<Tile>>)

  predicate Valid(b: Board)
  {
    |b.rows| == b.height && forall y :: 0 <= y < b.height ==> |b.rows[y]| == b.width
  }

  predicate SameShape(a: Board, b: Board)
  {
    a.width == b.width && a.height == b.height
  }

  function Get(b: Board, x: nat, y: nat): Tile
    requires Valid(b) && x < b.width && y < b.height
  {
    b.rows[y][x]
  }

  /** `set`: the board with the tile at (x, y) replaced. */
  function SetTile(b: Board, x: nat, y: nat, t: Tile): (r: Board)
    requires Valid(b) && x < b.width && y < b.height
    ensures Valid(r) && SameShape(r, b)
    ensures Get(r, x, y) == t
    ensures forall x': nat, y': nat :: x' < b.width && y' < b.height && (x' != x || y' != y) ==>
      Get(r, x', y') == Get(b, x', y')
  {
    b.(rows := b.rows[y := b.rows[y][x := t]])
  }

  // ---------------------------------------------------------------------------------
  // Moves, stated cell by cell

  /** Left's skier at (x, y) slides to column `dx` (or off the board when `dx` is the
      width): every cell after x up to and including dx is empty. */
  ghost predicate LeftSlide(b: Board, x: nat, y: nat, dx: nat, m: Board)
  {
    Valid(b) && x < b.width && y < b.height && Get(b, x, y).Left?
    && x < dx <= b.width
    && (forall k :: x < k <= dx && k < b.width ==> Get(b, k, y) == Empty)
    && m == if dx == b.width then SetTile(b, x, y, Empty)
            else SetTile(SetTile(b, x, y, Empty), dx, y, Get(b, x, y))
  }

  /** Left's jumper at (x, y) jumps over Right's skier at (x, y + 1): the jumper leaves,
      the skier below becomes a slipper, and the jumper lands on (x, y + 2) if that is
      on the board, whatever was there. */
  ghost predicate LeftJump(b: Board, x: nat, y: nat, m: Board)
  {
    Valid(b) && x < b.width && y + 1 < b.height
    && Get(b, x, y) == Left(Jumper) && Get(b, x, y + 1).Right?
    && var jumped := SetTile(SetTile(b, x, y, Empty), x, y + 1, Right(Slipper));
       m == if y + 2 < b.height then SetTile(jumped, x, y + 2, Left(Jumper)) else jumped
  }

  /** Right's skier at (x, y) slides to column `dx - 1` (or off the board when `dx` is
      0): every cell from dx - 1 up to x - 1 is empty. */
  ghost predicate RightSlide(b: Board, x: nat, y: nat, dx: nat, m: Board)
  {
    Valid(b) && x < b.width && y < b.height && Get(b, x, y).Right?
    && dx <= x
    && (forall k: nat :: dx <= k + 1 && k < x ==> Get(b, k, y) == Empty)
    && m == if dx == 0 then SetTile(b, x, y, Empty)
            else SetTile(SetTile(b, x, y, Empty), dx - 1, y, Get(b, x, y))
  }

  /** Right's jumper at (x, y) jumps over Left's skier at (x, y + 1). */
  ghost predicate RightJump(b: Board, x: nat, y: nat, m: Board)
  {
    Valid(b) && x < b.width && y + 1 < b.height
    && Get(b, x, y) == Right(Jumper) && Get(b, x, y + 1).Left?
    && var jumped := SetTile(SetTile(b, x, y, Empty), x, y + 1, Left(Slipper));
       m == if y + 2 < b.height then SetTile(jumped, x, y + 2, Right(Jumper)) else jumped
  }

  ghost predicate LeftMoveAt(b: Board, x: nat, y: nat, m: Board)
  {
    (exists dx: nat :: LeftSlide(b, x, y, dx, m)) || LeftJump(b, x, y, m)
  }

  ghost predicate RightMoveAt(b: Board, x: nat, y: nat, m: Board)
  {
    (exists dx: nat :: RightSlide(b, x, y, dx, m)) || RightJump(b, x, y, m)
  }

  /** A move of Left (`left`) or of Right made with the skier at (x, y). */
  ghost predicate MoveAt(b: Board, left: bool, x: nat, y: nat, m: Board)
  {
    if left then LeftMoveAt(b, x, y, m) else RightMoveAt(b, x, y, m)
  }

  /** A move of the player, made with any of its skiers. */
  ghost predicate IsMove(b: Board, left: bool, m: Board)
  {
    exists x: nat, y: nat :: MoveAt(b, left, x, y, m)
  }

  /** Cell (x', y') comes before (x, y) in the row-major scan. */
  predicate Before(x': nat, y': nat, x: nat, y: nat)
  {
    y' < y || (y' == y && x' < x)
  }

  /** The moves listed are exactly those of the player's skiers before (x, y). */
  ghost predicate Found(b: Board, left: bool, moves: seq<Board>, x: nat, y: nat)
  {
    (forall m :: m in moves ==> exists x': nat, y': nat :: Before(x', y', x, y) && MoveAt(b, left, x', y', m))
    && (forall x': nat, y': nat, m :: Before(x', y', x, y) && MoveAt(b, left, x', y', m) ==> m in moves)
  }

  // ---------------------------------------------------------------------------------
  // Move generation

  /** The slides and the jump of Left's skier at (x, y): for each column to its right in
      turn, leave the board at the end of the row, slide onto an empty cell, or stop at
      the first occupied one; then the jump over a Right skier directly below, for a
      jumper only. */
  method LeftSkierMoves(b: Board, x: nat, y: nat) returns (ms: seq<Board>)
    requires Valid(b) && x < b.width && y < b.height && Get(b, x, y).Left?
    ensures forall m :: m in ms <==> LeftMoveAt(b, x, y, m)
  {
    var tile := Get(b, x, y);
    ms := [];
    for dx: nat := x + 1 to b.width + 1
      invariant forall k :: x < k < dx && k < b.width ==> Get(b, k, y) == Empty
      invariant forall m :: m in ms <==> exists dx': nat :: dx' < dx && LeftSlide(b, x, y, dx', m)
    {
      var m: Board;
      if dx == b.width {
        m := SetTile(b, x, y, Empty);
      } else if Get(b, dx, y) == Empty {
        m := SetTile(SetTile(b, x, y, Empty), dx, y, tile);
      } else {
        var blocker := Get(b, dx, y);
        forall m, dx': nat | LeftSlide(b, x, y, dx', m) ensures dx' < dx {
          assert blocker != Empty;
        }
        break;
      }
      assert LeftSlide(b, x, y, dx, m);
      forall m' ensures m' in ms + [m] <==> exists dx': nat :: dx' < dx + 1 && LeftSlide(b, x, y, dx', m') {
        if m' != m && exists dx': nat :: dx' < dx + 1 && LeftSlide(b, x, y, dx', m') {
          var dx': nat :| dx' < dx + 1 && LeftSlide(b, x, y, dx', m');
          assert dx' != dx;
        }
      }
      ms := ms + [m];
    }
    if tile.skier == Jumper && y + 1 < b.height {
      if Get(b, x, y + 1).Right? {
        var jumped := SetTile(SetTile(b, x, y, Empty), x, y + 1, Right(Slipper));
        if y + 2 < b.height {
          jumped := SetTile(jumped, x, y + 2, Left(Jumper));
        }
        ms := ms + [jumped];
      }
    }
  }

  /** The slides and the jump of Right's skier at (x, y), mirrored: columns to its left
      in turn, from the nearest. */
  method RightSkierMoves(b: Board, x: nat, y: nat) returns (ms: seq<Board>)
    requires Valid(b) && x < b.width && y < b.height && Get(b, x, y).Right?
    ensures forall m :: m in ms <==> RightMoveAt(b, x, y, m)
  {
    var tile := Get(b, x, y);
    ms := [];
    for dx: nat := x + 1 downto 0
      invariant forall k: nat :: dx <= k + 1 && k < x ==> Get(b, k, y) == Empty
      invariant forall m :: m in ms <==> exists dx': nat :: dx <= dx' && RightSlide(b, x, y, dx', m)
    {
      var m: Board;
      if dx == 0 {
        m := SetTile(b, x, y, Empty);
      } else if Get(b, dx - 1, y) == Empty {
        m := SetTile(SetTile(b, x, y, Empty), dx - 1, y, tile);
      } else {
        var blocker := Get(b, dx - 1, y);
        forall m, dx': nat | RightSlide(b, x, y, dx', m) ensures dx < dx' {
          assert blocker != Empty;
        }
        break;
      }
      assert RightSlide(b, x, y, dx, m);
      forall m' ensures m' in ms + [m] <==> exists dx': nat :: dx <= dx' && RightSlide(b, x, y, dx', m') {
        if m' != m && exists dx': nat :: dx <= dx' && RightSlide(b, x, y, dx', m') {
          var dx': nat :| dx <= dx' && RightSlide(b, x, y, dx', m');
          assert dx' != dx;
        }
      }
      ms := ms + [m];
    }
    if tile.skier == Jumper && y + 1 < b.height {
      if Get(b, x, y + 1).Left? {
        var jumped := SetTile(SetTile(b, x, y, Empty), x, y + 1, Left(Slipper));
        if y + 2 < b.height {
          jumped := SetTile(jumped, x, y + 2, Right(Jumper));
        }
        ms := ms + [jumped];
      }
    }
  }

  /** Only a skier of the mover makes moves. */
  lemma NoMoveAt(b: Board, left: bool, x: nat, y: nat)
    requires Valid(b) && x < b.width && y < b.height
    requires if left then !Get(b, x, y).Left? else !Get(b, x, y).Right?
    ensures forall m :: !MoveAt(b, left, x, y, m)
  {
  }

  /** Scanning the cell (x, y) adds the moves of the skier there. */
  lemma FoundStep(b: Board, left: bool, moves: seq<Board>, x: nat, y: nat, ms: seq<Board>)
    requires Found(b, left, moves, x, y)
    requires forall m :: m in ms <==> MoveAt(b, left, x, y, m)
    ensures Found(b, left, moves + ms, x + 1, y)
  {
    forall m | m in moves + ms
      ensures exists x': nat, y': nat :: Before(x', y', x + 1, y) && MoveAt(b, left, x', y', m)
    {
      if m in moves {
        var x': nat, y': nat :| Before(x', y', x, y) && MoveAt(b, left, x', y', m);
        assert Before(x', y', x + 1, y);
      } else {
        assert Before(x, y, x + 1, y) && MoveAt(b, left, x, y, m);
      }
    }
  }

  /** Past the last column of a row, scanning goes on at the start of the next row. */
  lemma FoundRow(b: Board, left: bool, moves: seq<Board>, y: nat)
    requires Valid(b) && Found(b, left, moves, b.width, y)
    ensures Found(b, left, moves, 0, y + 1)
  {
    forall m | m in moves
      ensures exists x': nat, y': nat :: Before(x', y', 0, y + 1) && MoveAt(b, left, x', y', m)
    {
      var x': nat, y': nat :| Before(x', y', b.width, y) && MoveAt(b, left, x', y', m);
      assert Before(x', y', 0, y + 1);
    }
  }

  /** After the last row the listed moves are exactly the player's moves. */
  lemma FoundAll(b: Board, left: bool, moves: seq<Board>)
    requires Valid(b) && Found(b, left, moves, 0, b.height)
    ensures forall m :: m in moves <==> IsMove(b, left, m)
  {
    forall m | IsMove(b, left, m) ensures m in moves {
      var x': nat, y': nat :| MoveAt(b, left, x', y', m);
      assert Before(x', y', 0, b.height);
    }
  }

  /** `left_moves`: the moves of every Left skier, in row-major order of the skiers. */
  method LeftMoves(b: Board) returns (moves: seq<Board>)
    requires Valid(b)
    ensures forall m :: m in moves <==> IsMove(b, true, m)
  {
    moves := [];
    for y: nat := 0 to b.height
      invariant Found(b, true, moves, 0, y)
    {
      for x: nat := 0 to b.width
        invariant Found(b, true, moves, x, y)
      {
        var ms: seq<Board> := [];
        if Get(b, x, y).Left? {
          ms := LeftSkierMoves(b, x, y);
        } else {
          NoMoveAt(b, true, x, y);
        }
        FoundStep(b, true, moves, x, y, ms);
        moves := moves + ms;
      }
      FoundRow(b, true, moves, y);
    }
    FoundAll(b, true, moves);
  }

  /** `right_moves`: the moves of every Right skier, in row-major order of the skiers. */
  method RightMoves(b: Board) returns (moves: seq<Board>)
    requires Valid(b)
    ensures forall m :: m in moves <==> IsMove(b, false, m)
  {
    moves := [];
    for y: nat := 0 to b.height
      invariant Found(b, false, moves, 0, y)
    {
      for x: nat := 0 to b.width
        invariant Found(b, false, moves, x, y)
      {
        var ms: seq<Board> := [];
        if Get(b, x, y).Right? {
          ms := RightSkierMoves(b, x, y);
        } else {
          NoMoveAt(b, false, x, y);
        }
        FoundStep(b, false, moves, x, y, ms);
        moves := moves + ms;
      }
      FoundRow(b, false, moves, y);
    }
    FoundAll(b, false, moves);
  }

  // ---------------------------------------------------------------------------------
  // What a move changes

  /** A slide keeps the board's shape, empties the skier's cell and leaves every other
      row as it was. */
  lemma SlideLocal(b: Board, left: bool, x: nat, y: nat, dx: nat, m: Board)
    requires if left then LeftSlide(b, x, y, dx, m) else RightSlide(b, x, y, dx, m)
    ensures Valid(m) && SameShape(m, b) && Get(m, x, y) == Empty
    ensures forall x': nat, y': nat :: x' < b.width && y' < b.height && y' != y ==>
      Get(m, x', y') == Get(b, x', y')
  {
  }

  /** A jump keeps the board's shape, empties the jumper's cell, turns the skier below
      into a slipper and changes nothing outside column x, rows y to y + 2. */
  lemma JumpLocal(b: Board, left: bool, x: nat, y: nat, m: Board)
    requires if left then LeftJump(b, x, y, m) else RightJump(b, x, y, m)
    ensures Valid(m) && SameShape(m, b) && Get(m, x, y) == Empty
    ensures Get(m, x, y + 1) == if left then Right(Slipper) else Left(Slipper)
    ensures y + 2 < b.height ==> Get(m, x, y + 2) == if left then Left(Jumper) else Right(Jumper)
    ensures forall x': nat, y': nat :: x' < b.width && y' < b.height && (x' != x || y' < y || y + 2 < y') ==>
      Get(m, x', y') == Get(b, x', y')
  {
  }

  /** Left's skier leaves the board exactly when the whole row to its right is empty. */
  lemma LeftLeave(b: Board, x: nat, y: nat)
    requires Valid(b) && x < b.width && y < b.height && Get(b, x, y).Left?
    ensures LeftSlide(b, x, y, b.width, SetTile(b, x, y, Empty)) <==>
      forall k :: x < k < b.width ==> Get(b, k, y) == Empty
  {
  }

  /** Right's skier leaves the board exactly when the whole row to its left is empty. */
  lemma RightLeave(b: Board, x: nat, y: nat)
    requires Valid(b) && x < b.width && y < b.height && Get(b, x, y).Right?
    ensures RightSlide(b, x, y, 0, SetTile(b, x, y, Empty)) <==>
      forall k :: 0 <= k < x ==> Get(b, k, y) == Empty
  {
  }

  // ---------------------------------------------------------------------------------
  // `jump_available`

  /** A jumper at (x, y) and an opposing skier at (dx, y + 1), anywhere in the next row. */
  ghost predicate JumpPair(b: Board, x: nat, y: nat, dx: nat)
  {
    Valid(b) && x < b.width && dx < b.width && y + 1 < b.height
    && ((Get(b, x, y) == Left(Jumper) && Get(b, dx, y + 1).Right?)
        || (Get(b, x, y) == Right(Jumper) && Get(b, dx, y + 1).Left?))
  }

  ghost predicate JumpPossible(b: Board)
  {
    exists x: nat, y: nat, dx: nat :: JumpPair(b, x, y, dx)
  }

  /** No jump pair starts at a cell before (x, y). */
  ghost predicate NoPairBefore(b: Board, x: nat, y: nat)
  {
    forall x': nat, y': nat, dx: nat :: Before(x', y', x, y) ==> !JumpPair(b, x', y', dx)
  }

  /** `jump_available`: whether some jumper has an opposing skier anywhere in the row
      below it. */
  method JumpAvailable(b: Board) returns (r: bool)
    requires Valid(b)
    ensures r <==> JumpPossible(b)
  {
    for y: nat := 0 to b.height
      invariant NoPairBefore(b, 0, y)
    {
      for x: nat := 0 to b.width
        invariant NoPairBefore(b, x, y)
      {
        var current := Get(b, x, y);
        for dx: nat := 0 to b.width
          invariant forall dx': nat :: dx' < dx ==> !JumpPair(b, x, y, dx')
        {
          if y + 1 < b.height {
            match (current, Get(b, dx, y + 1))
            case (Left(Jumper), Right(_)) =>
              assert JumpPair(b, x, y, dx);
              return true;
            case (Right(Jumper), Left(_)) =>
              assert JumpPair(b, x, y, dx);
              return true;
            case _ =>
          }
        }
        assert forall x': nat, y': nat, dx: nat :: Before(x', y', x + 1, y) && JumpPair(b, x', y', dx) ==>
          Before(x', y', x, y) || (x' == x && y' == y);
      }
      assert forall x': nat, y': nat, dx: nat :: Before(x', y', 0, y + 1) && JumpPair(b, x', y', dx) ==>
        Before(x', y', b.width, y);
    }
    assert forall x': nat, y': nat, dx: nat :: JumpPair(b, x', y', dx) ==> Before(x', y', 0, b.height);
    return false;
  }

  /** Every jump move is seen by `jump_available`. */
  lemma JumpMoveAvailable(b: Board, x: nat, y: nat, m: Board)
    requires LeftJump(b, x, y, m) || RightJump(b, x, y, m)
    ensures JumpPossible(b)
  {
    assert JumpPair(b, x, y, x);
  }

  /** The board `L.|.R`: the check sees a jump, yet neither jumper can make one, since the
      opposing skier is not directly below it. */
  lemma JumpAvailableWithoutJump()
    ensures var b := Board(2, 2, [[Left(Jumper), Empty], [Empty, Right(Jumper)]]);
      JumpPossible(b) && forall x: nat, y: nat, m :: !LeftJump(b, x, y, m) && !RightJump(b, x, y, m)
  {
    var b := Board(2, 2, [[Left(Jumper), Empty], [Empty, Right(Jumper)]]);
    assert JumpPair(b, 0, 0, 1);
  }

  // ---------------------------------------------------------------------------------
  // `reductions`

  /** Left's skier at column x counts the cells it can still slide, off the board
      included; Right's counts against Left. */
  function TileValue(width: nat, x: nat, t: Tile): int
  {
    match t
    case Empty => 0
    case Left(_) => width - x
    case Right(_) => -(x + 1)
  }

  function RowValue(width: nat, row: seq<Tile>): int
  {
    if row == [] then 0
    else RowValue(width, row[..|row| - 1]) + TileValue(width, |row| - 1, row[|row| - 1])
  }

  function RowsValue(width: nat, rows: seq<seq<Tile>>): int
  {
    if rows == [] then 0
    else RowsValue(width, rows[..|rows| - 1]) + RowValue(width, rows[|rows| - 1])
  }

  function BoardValue(b: Board): int
  {
    RowsValue(b.width, b.rows)
  }

  /** `reductions`: when no jump is possible, the integer that counts the Left skiers'
      distances to the right edge against the Right skiers' distances to the left edge;
      otherwise nothing. */
  method Reductions(b: Board) returns (r: Option<int>)
    requires Valid(b)
    ensures r.None? <==> JumpPossible(b)
    ensures r.Some? ==> r.value == BoardValue(b)
  {
    var jump := JumpAvailable(b);
    if !jump {
      var value := 0;
      for y: nat := 0 to b.height
        invariant value == RowsValue(b.width, b.rows[..y])
      {
        for x: nat := 0 to b.width
          invariant value == RowsValue(b.width, b.rows[..y]) + RowValue(b.width, b.rows[y][..x])
        {
          assert b.rows[y][..x + 1][..x] == b.rows[y][..x];
          match Get(b, x, y)
          case Empty =>
          case Left(_) => value := value + (b.width - x);
          case Right(_) => value := value - (x + 1);
        }
        assert b.rows[y][..b.width] == b.rows[y];
        assert b.rows[..y + 1][..y] == b.rows[..y];
      }
      assert b.rows[..b.height] == b.rows;
      return Some(value);
    }
    return None;
  }

  /** Replacing one tile changes a row's value by the difference of the two tiles'. */
  lemma {:induction false} RowValueUpdate(width: nat, row: seq<Tile>, i: nat, t: Tile)
    requires i < |row|
    ensures RowValue(width, row[i := t]) == RowValue(width, row) - TileValue(width, i, row[i]) + TileValue(width, i, t)
    decreases |row|
  {
    var n := |row| - 1;
    assert row[i := t][..n] == if i == n then row[..n] else row[..n][i := t];
    if i < n {
      RowValueUpdate(width, row[..n], i, t);
    }
  }

  /** Replacing one row changes the value by the difference of the two rows'. */
  lemma {:induction false} RowsValueUpdate(width: nat, rows: seq<seq<Tile>>, y: nat, row: seq<Tile>)
    requires y < |rows|
    ensures RowsValue(width, rows[y := row]) == RowsValue(width, rows) - RowValue(width, rows[y]) + RowValue(width, row)
    decreases |rows|
  {
    var n := |rows| - 1;
    assert rows[y := row][..n] == if y == n then rows[..n] else rows[..n][y := row];
    if y < n {
      RowsValueUpdate(width, rows[..n], y, row);
    }
  }

  /** `set` changes the board's value by the difference of the two tiles'. */
  lemma SetTileValue(b: Board, x: nat, y: nat, t: Tile)
    requires Valid(b) && x < b.width && y < b.height
    ensures BoardValue(SetTile(b, x, y, t)) == BoardValue(b) - TileValue(b.width, x, Get(b, x, y)) + TileValue(b.width, x, t)
  {
    RowValueUpdate(b.width, b.rows[y], x, t);
    RowsValueUpdate(b.width, b.rows, y, b.rows[y][x := t]);
  }

  /** Each cell a Left skier slides, or leaving the board, lowers the value by one. */
  lemma LeftSlideValue(b: Board, x: nat, y: nat, dx: nat, m: Board)
    requires LeftSlide(b, x, y, dx, m)
    ensures BoardValue(m) == BoardValue(b) - (dx - x)
  {
    var cleared := SetTile(b, x, y, Empty);
    SetTileValue(b, x, y, Empty);
    if dx < b.width {
      SetTileValue(cleared, dx, y, Get(b, x, y));
    }
  }

  /** Each cell a Right skier slides, or leaving the board, raises the value by one. */
  lemma RightSlideValue(b: Board, x: nat, y: nat, dx: nat, m: Board)
    requires RightSlide(b, x, y, dx, m)
    ensures BoardValue(m) == BoardValue(b) + (x + 1 - dx)
  {
    var cleared := SetTile(b, x, y, Empty);
    SetTileValue(b, x, y, Empty);
    if 0 < dx {
      SetTileValue(cleared, dx - 1, y, Get(b, x, y));
    }
  }
}
