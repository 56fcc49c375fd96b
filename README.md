# cgt-rs core in Dafny

A Dafny model of the sequential core of `cgt-rs`, a toolkit for combinatorial game theory.
It covers:

- **Packed boolean grids.** A grid of at most 64 cells is one 64-bit word. Cell (x, y) is
  bit `width * y + x`. `SmallBitGrid` and the Domineering `Position` share this layout:
  indexing, `set`, the dimension check, the constructors, `.#|` parsing and printing,
  rotation, the two flips, and the bit/bool-array conversions.
- **Domineering rules.** Domino placement for Left (vertical) and Right (horizontal), then
  sort and dedup. `move_top_left`, which trims filled rows and columns off the edges. The
  breadth-first search and the split of a board into its 4-connected regions of free cells.
- **Ski Jumps.** The tile codec, slide and jump move generation, `jump_available`, and the
  integer shortcut of `reductions`.
- **Exact numbers.** `DyadicRationalNumber`, an `i32` fraction kept in lowest terms.
  `Rational`, `Rational64` extended with the two infinities.
- **Quicksort.** The game's `pick` (a stable three-way partition around a pivot), `moves`,
  and the Grundy value computed by `game`.

Modules and files:

| file | module | core file |
|---|---|---|
| `bits.dfy` | `Bits` | 64-bit words as naturals; `bits_to_arr`, `arr_to_bits` |
| `bit_grid.dfy` | `BitGrid` | the grid word shared by both grid types; notation, printing, the parse loop, rotation and flips |
| `small_bit_grid.dfy` | `SmallBitGrid` | `src/grid/small_bit_grid.rs` |
| `domineering.dfy` | `Domineering` | `Position` constructors, parse and flips in `src/domineering.rs` |
| `domineering_trim.dfy` | `DomineeringTrim` | `free_places`, `move_top_left` |
| `domineering_moves.dfy` | `DomineeringMoves` | `moves_for`, `left_moves`, `right_moves` |
| `domineering_split.dfy` | `DomineeringSplit` | `bfs`, `decompositions` |
| `ski_jumps.dfy` | `SkiJumps` | `src/short/partizan/games/ski_jumps.rs` |
| `arith.dfy` | `Arith` | gcd, lowest terms and trailing zeros (helpers) |
| `dyadic.dfy` | `DyadicRational` | `src/dyadic_rational_number.rs` |
| `rational.dfy` | `ExtendedRational` | `src/numeric/rational.rs` |
| `quicksort.dfy` | `Quicksort`, `QuicksortGame` | `src/short/impartial/games/quicksort.rs` |
| `outcome.dfy` | `Outcome` | `Option`, `Result` and `Run` (returns or panics) |

Modelling conventions:

- **Grids as values.** `Position` and `SmallBitGrid` are `Copy` values. Each is the
  datatype `Grid(width, height, grid)`, where the word is a natural below 2^64.
  - `set` updates the field in place. That is `BitGrid.GridVar.SetCell`, which the function
    `BitGrid.Set` specifies.
  - The loops that build a grid keep it in a local variable.
- **Panics.** A panic in a debug build becomes a precondition: arithmetic overflow, a shift
  by 64 or more, `unwrap` of an error.
  - The parsers are the exception: they take arbitrary text, so they return
    `Run.Panics`.
  - The arithmetic operators that end in `unimplemented!()` also return `Run.Panics`.
- **Moves as sets.** Each move generator is proved equal, as a set of positions, to an
  independent cell-by-cell statement of the game's rules: `IsMove`, `LeftSlide`,
  `LeftJump`, and so on.

## Model

| member | source | states |
|---|---|---|
| BitGrid.FitsIsProduct | src/grid/small_bit_grid.rs:59-64 | The dimension check passes exactly when width * height <= 64. |
| BitGrid.IndexBound | src/grid/small_bit_grid.rs:20-23 | Every cell of a grid has a bit index below width * height, so below 64 for a valid grid. |
| BitGrid.IndexInjective | src/grid/small_bit_grid.rs:20-23 | Two cells with column below the width and the same index are the same cell. |
| BitGrid.SetOnlyThatBit | src/domineering.rs:270-274 | `set(x, y, v)` makes bit width * y + x equal to v and leaves every other bit as it was. |
| BitGrid.GetSet | src/grid/small_bit_grid.rs:20-29 | After `set(x, y, v)`, `get(x, y)` is v. Every other cell reads as before, and so does every bit outside the cells. |
| BitGrid.GridVar.SetCell | src/grid/small_bit_grid.rs:25-29 | The in-place `set` replaces the receiver's word by the `Set` of the old one. Only bit width * y + x changes, and it becomes v. |
| BitGrid.JoinRows | src/grid/small_bit_grid.rs:42-55 | Splitting a text at each row separator and joining the rows with the separator gives back the text. |
| BitGrid.RowsJoin | src/grid/small_bit_grid.rs:186-223 | Joining rows that contain no separator and splitting again gives back the rows. |
| BitGrid.RowText | src/grid/small_bit_grid.rs:45-49 | Row y prints one character per column: `#` exactly for a filled cell, `.` otherwise. |
| BitGrid.Fmt | src/grid/small_bit_grid.rs:42-55 | `Display` prints `Render(g)`: the rows top to bottom, each cell `#` or `.`, with the separator between rows and none at the end. |
| BitGrid.RenderWellFormed | src/grid/small_bit_grid.rs:42-55 | What a grid of at least one row prints is well formed and describes exactly that grid's cells. |
| BitGrid.RenderMatches | src/grid/small_bit_grid.rs:42-55 | Any well-formed text that describes a grid is the text the grid prints. |
| BitGrid.ScanCells | src/grid/small_bit_grid.rs:196-216 | The character loop of both parsers. It fills each cell from its `.` or `#`. It rejects a separator met before a full row and any other character, and a rejection implies the text is not in notation or has a short row. On a rectangular text it reads every cell. On a text of at most 64 characters it never panics. |
| BitGrid.WellFormedSizes | src/grid/small_bit_grid.rs:189-194 | For a well-formed text: the computed width is the first row's length, the height is the number of separators plus 1, neither wraps around `u8`, and the size fits. |
| BitGrid.ScannedWellFormed | src/grid/small_bit_grid.rs:186-223 | A text whose cells were all read, with every row full, is well formed. The grid read matches it, has no stray bits, and prints as the text. |
| BitGrid.CellOfIndex | src/grid/small_bit_grid.rs:20-23 | Every bit index below width * height is the index of exactly one cell (n % width, n / width). |
| BitGrid.GridsEqual | src/grid/small_bit_grid.rs:20-23 | Two grids of the same size are equal when they agree on every cell and on every bit outside the cells. |
| BitGrid.Rotate | src/grid/small_bit_grid.rs:228-236 | `rotate` (in both files) swaps the dimensions and sends cell (x, y) to (height - 1 - y, x). The result has no stray bits. |
| BitGrid.VerticalFlipOnto | src/grid/small_bit_grid.rs:240-248 | Writing every cell (x, y) to (width - 1 - x, y) over a starting grid mirrors the grid left to right. Only the stray bits of the starting grid survive. |
| BitGrid.HorizontalFlipOnto | src/grid/small_bit_grid.rs:252-260 | Writing every cell (x, y) to (x, height - 1 - y) mirrors the grid top to bottom. Only the stray bits of the starting grid survive. |
| BitGrid.VerticalFlipBack | src/grid/small_bit_grid.rs:371-393 | Mirroring left to right twice gives back every cell. |
| BitGrid.HorizontalFlipBack | src/grid/small_bit_grid.rs:371-393 | Mirroring top to bottom twice gives back every cell. |
| BitGrid.VerticalFlipTwice | src/grid/small_bit_grid.rs:240-248 | The left-right mirror is its own inverse: flipping twice, while keeping the stray bits, gives back the same word. |
| BitGrid.HorizontalFlipTwice | src/grid/small_bit_grid.rs:252-260 | The top-bottom mirror is its own inverse in the same sense. |
| BitGrid.RotateTwice | src/grid/small_bit_grid.rs:344-369 | Two quarter turns give the half turn: cell (x, y) goes to (width - 1 - x, height - 1 - y) with the dimensions unchanged. |
| BitGrid.RotateBack | src/grid/small_bit_grid.rs:344-369 | Four quarter turns give back every cell. |
| BitGrid.RotateFourTimes | src/grid/small_bit_grid.rs:228-236 | Four quarter turns of a grid without stray bits give back the same grid. |
| Bits.BitOfSetBit | src/grid/small_bit_grid.rs:25-29 | Clearing bit n and or-ing in v sets bit n to v and keeps every other bit. |
| Bits.SameBits | src/grid/small_bit_grid.rs:20-23 | Two 64-bit words with the same 64 bits are equal. |
| Bits.BitsToArr | src/grid/small_bit_grid.rs:281-289 | `bits_to_arr(n)` has 64 entries, and entry i is bit i of n. |
| Bits.ArrToBits | src/grid/small_bit_grid.rs:310-321 | For at most 64 entries, bit n of the result is entry n of the array; the bits past the array are clear. |
| Bits.BitsArrRoundTrip | src/grid/small_bit_grid.rs:323-327 | `arr_to_bits(bits_to_arr(n)) == n` for every 64-bit n. |
| SmallBitGrid.Empty | src/grid/small_bit_grid.rs:78-86 | Returns `None` exactly when width * height > 64. Otherwise it has the given size, every cell empty and no stray bits. |
| SmallBitGrid.ZeroSize | src/grid/small_bit_grid.rs:90-96 | The 0 by 0 grid is valid, has no stray bits and prints as the empty text. |
| SmallBitGrid.Filled | src/grid/small_bit_grid.rs:110-118 | Returns `None` exactly when width * height > 64. Otherwise every cell is filled, and so is every bit of the word (`GridBits::MAX`), past the cells too. |
| SmallBitGrid.FromNumber | src/grid/small_bit_grid.rs:138-145 | Returns `None` exactly when width * height > 64. Otherwise cell (x, y) is bit width * y + x of the number, and the whole number is kept as the word, bits past the cells included. |
| SmallBitGrid.FromArr | src/grid/small_bit_grid.rs:163-165 | Returns `None` exactly when width * height > 64. Otherwise cell (x, y) is entry width * y + x of the array (empty past its end). There are no stray bits exactly when the entries past the cells are all false. |
| SmallBitGrid.Parse | src/grid/small_bit_grid.rs:186-223 | Returns a grid exactly when the text is well formed: only `.`, `#` and the separator, every row as long as the first, a size that fits, at most 255 separators. The grid matches the text cell by cell, has no stray bits and prints back as the text. A text of at most 64 characters never panics. |
| SmallBitGrid.VerticalFlip | src/grid/small_bit_grid.rs:240-248 | Mirrors left to right, starting from a copy, so the bits outside the cells are kept. |
| SmallBitGrid.HorizontalFlip | src/grid/small_bit_grid.rs:252-260 | Mirrors top to bottom, starting from a copy. |
| SmallBitGrid.FlipsTwice | src/grid/small_bit_grid.rs:371-393 | Each flip applied twice gives back exactly the original grid. |
| SmallBitGrid.RotateFourTimes | src/grid/small_bit_grid.rs:344-369 | Four calls of `rotate` give back a grid without stray bits. |
| SmallBitGrid.FmtParse | src/grid/small_bit_grid.rs:42-55 | Parsing what a grid prints gives back the grid, for every grid with a row and no stray bits. |
| Domineering.CheckDimensions | src/domineering.rs:76-81 | `Ok` exactly when width * height <= 64, `TooLarge` otherwise. |
| Domineering.Empty | src/domineering.rs:91-99 | `TooLarge` exactly when width * height > 64. Otherwise every cell is empty and there are no stray bits. |
| Domineering.Filled | src/domineering.rs:109-117 | `TooLarge` exactly when width * height > 64. Otherwise every cell is filled, and so is every bit of the word (`GridBits::MAX`), past the cells too. |
| Domineering.FromNumber | src/domineering.rs:184-195 | `TooLarge` exactly when width * height > 64. Otherwise cell (x, y) is bit width * y + x of the id, and the whole id is kept as the word, bits past the cells included. |
| Domineering.FromArr | src/domineering.rs:209-211 | `TooLarge` exactly when width * height > 64. Otherwise cell (x, y) is entry width * y + x of the array. |
| Domineering.ScannedLoosely | src/domineering.rs:145-167 | When the loop ends, the grid holds the cells written in the text, and the missing cells of a short last row are empty. |
| Domineering.ParseAsWritten | src/domineering.rs:131-168 | `Position::parse` as written. `TooLarge` exactly when the computed size does not fit. `CouldNotParse` only for a text out of notation or with a row before the last whose length differs from the first row's. A text of at most 64 characters in notation with such full rows is accepted, whatever the length of its last row. A grid returned holds the text's cells: a short last row leaves its missing cells empty, and every cell of a long last row is still written at bit width * y + x, past the cells. Stray bits are absent when the last row is no longer than the first. Every rectangular text that fits is accepted. |
| Domineering.CutText | src/domineering.rs:145-167 | Removing the last cell of a well-formed text of at least two rows leaves a text that is not well formed but has the same computed width and height. |
| Domineering.CutLastCell | src/domineering.rs:145-167 | `Position::parse` accepts such a text with a short last row. It returns a grid of the original size whose last cell is empty. |
| Domineering.LongLastRow | src/domineering.rs:145-167 | `Position::parse` as written accepts the rows `#` and `##` joined by the separator as a 1 by 2 position. Both cells are filled and bit 2, which stands for no cell, is set as well. It prints like the parse of the rows `#` and `#`, yet differs from it. The corrected parse rejects the text with `CouldNotParse`. |
| Domineering.Parse | src/domineering.rs:131-168 | `parse` with the final-row check added. It returns a grid exactly when the text is well formed, and the grid matches the text and prints back as it. `TooLarge` exactly when the computed size does not fit. A text of at most 64 characters never panics, and it gets `CouldNotParse` exactly when its size fits and it is not well formed. |
| Domineering.FmtParse | src/domineering.rs:378-382 | With the corrected parse, parsing what a position prints gives back the position, for every position with a row and no stray bits. |
| Domineering.FmtParseAsWritten | src/domineering.rs:378-382 | The same roundtrip with `Position::parse` as written, as the display test calls it. |
| Domineering.VerticalFlip | src/domineering.rs:733-741 | Mirrors left to right, starting from an empty grid: no stray bits. |
| Domineering.HorizontalFlip | src/domineering.rs:744-752 | Mirrors top to bottom, starting from an empty grid. |
| Domineering.FlipsTwice | src/domineering.rs:782-804 | Each flip applied twice gives back a position without stray bits. |
| DomineeringTrim.FreePlaces | src/domineering.rs:350-360 | `free_places` counts the empty cells: the size of the set of free cells. |
| DomineeringTrim.FillCell | src/domineering.rs:270-274 | Filling a cell that was empty removes exactly one free place. |
| DomineeringTrim.RowIsFull | src/domineering.rs:395-406 | The inner loop with its break flag answers whether row y is entirely filled. |
| DomineeringTrim.ColIsFull | src/domineering.rs:433-444 | The inner loop answers whether column x is entirely filled. |
| DomineeringTrim.CountTop | src/domineering.rs:394-408 | `filled_top_rows` is the number of entirely filled rows at the top edge. |
| DomineeringTrim.CountBottom | src/domineering.rs:415-429 | `filled_bottom_rows` is the number of entirely filled rows at the bottom edge. |
| DomineeringTrim.CountLeft | src/domineering.rs:432-446 | `filled_left_cols` is the number of entirely filled columns at the left edge. |
| DomineeringTrim.CountRight | src/domineering.rs:453-467 | `filled_right_cols` is the number of entirely filled columns at the right edge. |
| DomineeringTrim.EdgesMeaning | src/domineering.rs:393-468 | Each count covers only filled rows or columns, and the row or column just past it has a free place. |
| DomineeringTrim.AllFilled | src/domineering.rs:411-413 | Every row is filled exactly when every column is, exactly when the grid has no free place. |
| DomineeringTrim.FreeInside | src/domineering.rs:470-479 | With a free place, the trimmed margins leave a non-empty inner box that holds every free cell. |
| DomineeringTrim.Crop | src/domineering.rs:470-479 | The copy loop builds the inner box: its size is the size minus the margins, and cell (x, y) is cell (x + left, y + top) of the input. |
| DomineeringTrim.MoveTopLeft | src/domineering.rs:393-480 | `move_top_left` returns the trim: 0 by 0 when every row or column is filled, otherwise the input with exactly the filled edge rows and columns removed. |
| DomineeringTrim.TrimKeepsFree | src/domineering.rs:393-480 | Trimming keeps `free_places`. |
| DomineeringTrim.TrimShape | src/domineering.rs:393-480 | The trim is 0 by 0 exactly when the input has no free place; otherwise it has at least one row and one column. |
| DomineeringTrim.TrimUnique | src/domineering.rs:393-480 | The trim of a grid is unique. |
| DomineeringTrim.TrimIdempotent | src/domineering.rs:393-480 | Trimming a trimmed grid changes nothing. |
| DomineeringMoves.LessTotal | src/domineering.rs:18-23 | The derived order on (width, height, grid) is a strict total order. |
| DomineeringMoves.Insert | src/domineering.rs:295-296 | Inserting into a strictly ascending list keeps it strictly ascending and adds exactly the new element. |
| DomineeringMoves.SortDedup | src/domineering.rs:295-296 | `sort_unstable` then `dedup` gives a strictly ascending list with the same elements. |
| DomineeringMoves.AscendingUnique | src/domineering.rs:295-296 | Two strictly ascending lists with the same elements are equal, so the sorted move list is determined by its set. |
| DomineeringMoves.PlaceFreeCells | src/domineering.rs:287-290 | Placing a domino on two free cells removes exactly two free places. |
| DomineeringMoves.MoveShape | src/domineering.rs:287-291 | Every move has two free places fewer than the position and is already trimmed. |
| DomineeringMoves.MovesFor | src/domineering.rs:276-298 | `moves_for` is empty for a grid without rows or columns. Its list is strictly ascending, with exactly the trimmed grids obtained by filling two free cells (x, y) and (x + dx, y + dy). |
| DomineeringMoves.LeftMoves | src/domineering.rs:322-324 | Left's moves are exactly the placements of a vertical domino, trimmed, in strictly ascending order. |
| DomineeringMoves.RightMoves | src/domineering.rs:344-346 | Right's moves are exactly the placements of a horizontal domino, trimmed, in strictly ascending order. |
| DomineeringSplit.PushNeighbours | src/domineering.rs:491-505 | Queues each of the four neighbours that is on the board, free and unvisited, keeping the search invariant. |
| DomineeringSplit.Visit | src/domineering.rs:488-506 | One pass of the queue loop keeps the search invariant. Either a new cell is visited or a duplicate queue entry is dropped. |
| DomineeringSplit.Bfs | src/domineering.rs:482-508 | From a free, unvisited cell, `bfs` visits a region connected to the start. It marks the region's cells visited and leaves every free neighbour of the region visited. The result is the board with every other cell filled, trimmed, with as many free places as the region. |
| DomineeringSplit.SplitCount | src/domineering.rs:534-535 | The free places of the visited grid before a search are those after it plus those of the region found. |
| DomineeringSplit.DecEnd | src/domineering.rs:532-540 | When the scan ends, every free cell lies in some region, and the parts' free places add up to the board's. |
| DomineeringSplit.Decompositions | src/domineering.rs:528-541 | One trimmed part per 4-connected region of free cells. The regions are disjoint, closed under free neighbours and connected. They are ordered by first cell in row-major scan, and they cover every free cell. The parts' `free_places` add up to the board's. |
| SkiJumps.TileToChar | src/short/partizan/games/ski_jumps.rs:39-47 | Every tile prints as one of `.LlRr`. |
| SkiJumps.CharToTile | src/short/partizan/games/ski_jumps.rs:49-58 | A character decodes to a tile exactly when it is one of `.LlRr`, and the tile prints back as that character. |
| SkiJumps.TileRoundTrip | src/short/partizan/games/ski_jumps.rs:38-59 | `char_to_tile(tile_to_char(t)) == Some(t)` for all five tiles. |
| SkiJumps.SetTile | src/short/partizan/games/ski_jumps.rs:190-195 | `set` keeps the dimensions, writes the tile at (x, y) and changes no other cell. |
| SkiJumps.LeftSkierMoves | src/short/partizan/games/ski_jumps.rs:185-217 | The moves of Left's skier at (x, y) are exactly its slides to the right up to the first occupied cell, its exit off the board, and its jump when it is a jumper. |
| SkiJumps.RightSkierMoves | src/short/partizan/games/ski_jumps.rs:233-268 | The moves of Right's skier at (x, y), mirrored to the left edge. |
| SkiJumps.NoMoveAt | src/short/partizan/games/ski_jumps.rs:183-185 | A cell without one of the mover's skiers gives no move. |
| SkiJumps.FoundAll | src/short/partizan/games/ski_jumps.rs:181-221 | After the scan of every cell, the list holds exactly the player's moves. |
| SkiJumps.LeftMoves | src/short/partizan/games/ski_jumps.rs:178-224 | `left_moves` holds exactly the slides, exits and jumps of Left's skiers. |
| SkiJumps.RightMoves | src/short/partizan/games/ski_jumps.rs:226-275 | `right_moves` holds exactly the slides, exits and jumps of Right's skiers. |
| SkiJumps.SlideLocal | src/short/partizan/games/ski_jumps.rs:187-201 | A slide keeps the dimensions, empties the skier's cell and changes only cells in its row. |
| SkiJumps.JumpLocal | src/short/partizan/games/ski_jumps.rs:203-217 | A jump keeps the dimensions. It empties the jumper's cell and turns the skier below into a slipper of its side. It puts the jumper at (x, y + 2) when that is on the board, and changes nothing outside column x, rows y to y + 2. |
| SkiJumps.LeftLeave | src/short/partizan/games/ski_jumps.rs:187-191 | Left's skier can leave the board exactly when the whole row to its right is empty. |
| SkiJumps.RightLeave | src/short/partizan/games/ski_jumps.rs:235-242 | Right's skier can leave the board exactly when the whole row to its left is empty. |
| SkiJumps.JumpAvailable | src/short/partizan/games/ski_jumps.rs:90-112 | True exactly when some jumper has an opposing skier anywhere in the row below it. |
| SkiJumps.JumpMoveAvailable | src/short/partizan/games/ski_jumps.rs:90-112 | Whenever a jump move exists, `jump_available` is true. |
| SkiJumps.JumpAvailableWithoutJump | src/short/partizan/games/ski_jumps.rs:90-112 | The converse fails: a 2 by 2 board with the opposing skier diagonally below makes `jump_available` true with no jump move. |
| SkiJumps.Reductions | src/short/partizan/games/ski_jumps.rs:277-295 | `None` exactly when a jump is available. Otherwise the value sums width - x over Left's skiers and subtracts x + 1 over Right's. |
| SkiJumps.SetTileValue | src/short/partizan/games/ski_jumps.rs:282-290 | Changing one tile changes the board's value by that tile's contribution only. |
| SkiJumps.LeftSlideValue | src/short/partizan/games/ski_jumps.rs:187-201 | A Left slide to column dx lowers the value by dx - x, by the distance slid, exit included. |
| SkiJumps.RightSlideValue | src/short/partizan/games/ski_jumps.rs:235-252 | A Right slide raises the value by the distance slid. |
| Arith.GcdDivides | src/dyadic_rational_number.rs:25-28 | When either argument is positive, the gcd is positive and divides both. |
| Arith.GcdGreatest | src/dyadic_rational_number.rs:25-28 | Every common divisor divides the gcd. |
| Arith.QuotientsReduced | src/dyadic_rational_number.rs:30-33 | Dividing both by their gcd leaves a fraction in lowest terms. |
| Arith.ReducedUnique | src/numeric/rational.rs:22 | Two fractions in lowest terms with positive denominators and the same value are equal. |
| Arith.TrailingZeros | src/dyadic_rational_number.rs:20-22 | For n > 0, n is 2^e times an odd number, where e is the count of trailing zero bits. |
| DyadicRational.Normalized | src/dyadic_rational_number.rs:24-34 | Dividing by the gcd keeps the value and the signs. For a positive denominator, the result is in lowest terms. |
| DyadicRational.NormalizedIdentity | src/dyadic_rational_number.rs:24-34 | Normalizing a value already in lowest terms changes nothing, so normalizing twice is normalizing once. |
| DyadicRational.Rational | src/dyadic_rational_number.rs:46-67 | `None` exactly for a zero denominator, and 0/1 for a zero numerator. Otherwise the result is in lowest terms with a positive denominator, the sign of n times the sign of d, and the value n/d. |
| DyadicRational.NotAlwaysDyadic | src/dyadic_rational_number.rs:59-66 | `rational(1, 3)` is accepted although 3 is not a power of two. |
| DyadicRational.FromInt | src/dyadic_rational_number.rs:79-86 | `From<i32>` gives n/1, a valid value equal to n. |
| DyadicRational.ToInteger | src/dyadic_rational_number.rs:70-76 | `Some` exactly when the value is an integer, and then that integer. |
| DyadicRational.IntegerRoundTrip | src/dyadic_rational_number.rs:70-86 | `to_integer(from(n)) == Some(n)`. |
| DyadicRational.DenominatorExponent | src/dyadic_rational_number.rs:20-22 | The denominator is 2^e times an odd number. |
| DyadicRational.DenominatorExponentExamples | src/dyadic_rational_number.rs:108-122 | 52/1 has exponent 0 and 1/8 has exponent 3. |
| DyadicRational.Add | src/dyadic_rational_number.rs:88-98 | The sum is in lowest terms and has the exact value a + b. |
| DyadicRational.AddCommutes | src/dyadic_rational_number.rs:88-98 | `a + b == b + a`. |
| DyadicRational.AddZero | src/dyadic_rational_number.rs:88-98 | `a + 0 == a`. |
| DyadicRational.DyadicVar.Normalize | src/dyadic_rational_number.rs:36-44 | The in-place `normalize` leaves the fields equal to `normalized` of the old value. |
| DyadicRational.DyadicVar.AddAssign | src/dyadic_rational_number.rs:100-106 | `a += b` leaves `a` equal to the old `a + b`, in lowest terms. |
| ExtendedRational.MakeRatio | src/numeric/rational.rs:29-33 | `Rational64::new(n, d)` for d != 0 is in lowest terms and equals n/d. |
| ExtendedRational.InfinitiesBound | src/numeric/rational.rs:15-26 | Negative infinity is below, and positive infinity above, every other value. |
| ExtendedRational.OrderTotal | src/numeric/rational.rs:15-26 | The derived order is total, asymmetric and irreflexive on valid values. |
| ExtendedRational.OrderTransitive | src/numeric/rational.rs:15-26 | The order is transitive. |
| ExtendedRational.New | src/numeric/rational.rs:29-33 | Panics exactly for a zero denominator; otherwise a finite value equal to n/d. |
| ExtendedRational.IsInfinite | src/numeric/rational.rs:36-39 | True exactly for the two infinities. |
| ExtendedRational.InfiniteIsExtreme | src/numeric/rational.rs:36-39 | A value is infinite exactly when nothing is above it or nothing is below it. |
| ExtendedRational.FromInt | src/numeric/rational.rs:48-58 | `From<i64>` (and `From<i32>`) gives the finite value n. |
| ExtendedRational.RatioAdd | src/numeric/rational.rs:62 | The sum of two fractions is in lowest terms and exact. |
| ExtendedRational.Add | src/numeric/rational.rs:60-72 | Panics exactly when both operands are infinite. A finite pair gives the exact sum, and a finite value plus an infinity is that infinity, in either order. |
| ExtendedRational.AddCommutes | src/numeric/rational.rs:60-72 | `a + b == b + a`, panics included. |
| ExtendedRational.AddZero | src/numeric/rational.rs:60-72 | `a + 0 == a` for every valid a. |
| ExtendedRational.Neg | src/numeric/rational.rs:120-126 | Unary minus keeps validity and swaps the infinities. |
| ExtendedRational.NegInvolution | src/numeric/rational.rs:120-126 | `-(-a) == a`. |
| ExtendedRational.NegReverses | src/numeric/rational.rs:120-126 | `a < b` exactly when `-b < -a`. |
| ExtendedRational.AddNeg | src/numeric/rational.rs:60-72 | `a + (-a) == 0` for finite a. |
| ExtendedRational.Sub | src/numeric/rational.rs:76-82 | Panics exactly when an operand is infinite; otherwise a finite valid value. |
| ExtendedRational.SubIsAddNeg | src/numeric/rational.rs:76-82 | On finite values, `a - b == a + (-b)`. |
| ExtendedRational.Mul | src/numeric/rational.rs:86-107 | Two finite values always give a finite product, and it is exact: num * (den_a * den_b) == num_a * num_b * den, zero times zero included. A product that returns is valid. |
| ExtendedRational.MulCommutes | src/numeric/rational.rs:86-107 | `a * b == b * a`, panics included: the swapped arm defers to the other order. |
| ExtendedRational.MulInfinity | src/numeric/rational.rs:89-105 | A positive finite value times an infinity is that infinity. A negative one gives the opposite infinity. Zero times an infinity panics. |
| ExtendedRational.Div | src/numeric/rational.rs:111-117 | Panics exactly when an operand is infinite or the divisor is 0. Otherwise the exact quotient. |
| ExtendedRational.DivMul | src/numeric/rational.rs:86-117 | `(a / b) * b == a` for finite a and non-zero finite b. |
| ExtendedRational.DigitsRoundTrip | src/numeric/rational.rs:128-136 | The decimal digits of n read back as n. |
| ExtendedRational.IntRoundTrip | src/numeric/rational.rs:141 | The `i64` parser reads back any printed `i64`, leaving whatever follows that does not start with a digit. |
| ExtendedRational.UnsignedRoundTrip | src/numeric/rational.rs:144 | The unsigned parser reads back any printed number that fits its bound. |
| ExtendedRational.DisplayParse | src/numeric/rational.rs:128-151 | Parsing the `Display` of a finite value with an `i64` numerator and `u32` denominator gives back the value and consumes the whole text. |
| ExtendedRational.ParseInteger | src/numeric/rational.rs:149 | Without `/` after the numerator, `parse` returns the integer and leaves the rest unread. |
| ExtendedRational.ParseMissingDenominator | src/numeric/rational.rs:144 | A `/` not followed by a digit is a parse error. |
| ExtendedRational.ParseTrailing | src/numeric/rational.rs:145 | Text after the denominator is a parse error. |
| ExtendedRational.ParseZeroDenominator | src/numeric/rational.rs:146-147 | A zero denominator is not caught by the parser: `new` panics. |
| ExtendedRational.ExampleThreeSixteenths | src/numeric/rational.rs:162-168 | `3/16` parses and prints back unchanged. |
| ExtendedRational.ExampleFortyTwo | src/numeric/rational.rs:162-168 | `42` parses and prints back unchanged. |
| ExtendedRational.ExampleMinusHalf | src/numeric/rational.rs:162-168 | `-1/2` parses and prints back unchanged. |
| ExtendedRational.ExampleTwoThirds | src/numeric/rational.rs:162-168 | `2/3` parses and prints back unchanged. |
| Quicksort.Pick | src/short/impartial/games/quicksort.rs:18-32 | `pick(p)` is the elements smaller than the pivot in their order, then the pivot, then the larger ones in their order. |
| Quicksort.PickCount | src/short/impartial/games/quicksort.rs:19-31 | The pivot value occurs exactly once in `pick(p)` while every other value keeps its count, so `pick(p)` is no longer than the input. |
| Quicksort.PartsSize | src/short/impartial/games/quicksort.rs:20-30 | The smaller part, the copies of the pivot and the larger part account for the whole input. |
| Quicksort.PickPartitioned | src/short/impartial/games/quicksort.rs:18-32 | `pick(p)` is partitioned: the pivot sits after the smaller elements, with only smaller elements before it and only larger ones after it. |
| Quicksort.JoinedParts | src/short/impartial/games/quicksort.rs:20-30 | For l entirely below v and r entirely above v, partitioning l + [v] + r around v gives back l and r. |
| Quicksort.Moves | src/short/impartial/games/quicksort.rs:34-43 | `moves` has no duplicates and never the input. It holds exactly the `pick(p)` that differ from the input, in the order of the first pivot that produced each. |
| Quicksort.IncreasingNoMoves | src/short/impartial/games/quicksort.rs:18-43 | In a strictly increasing sequence `pick(p)` is the input for every p, so there are no moves. |
| QuicksortGame.InversionsSplit | src/short/impartial/games/quicksort.rs:18-32 | The inversions of a sequence are those inside each part plus those across parts. |
| QuicksortGame.CrossZero | src/short/impartial/games/quicksort.rs:18-32 | No inversion crosses the parts exactly when the sequence already lists smaller, equal and larger elements in that order. |
| QuicksortGame.PickDecreases | src/short/impartial/games/quicksort.rs:18-32 | `pick(p)` has no more elements and no more inversions than the input, and strictly fewer of one whenever it differs. |
| QuicksortGame.OptionsAreMoves | src/short/impartial/games/quicksort.rs:34-43 | The set of options is the set of elements of `moves`, each smaller in (length, inversions). |
| QuicksortGame.Mex | src/short/impartial/games/quicksort.rs:52 | The minimum excludant: not in the set, and every smaller natural is. |
| QuicksortGame.MoveValues | src/short/impartial/games/quicksort.rs:47-52 | The values computed for the move list form the set of the options' values. |
| QuicksortGame.MoveGames | src/short/impartial/games/quicksort.rs:47-50 | The loop computes the game value of each move, in order. |
| QuicksortGame.Game | src/short/impartial/games/quicksort.rs:45-53 | `game` computes the Grundy value: the mex of the options' values. It terminates because each option is smaller in (length, inversions). |
| QuicksortGame.GameValueMex | src/short/impartial/games/quicksort.rs:45-53 | No option has the position's value, and every smaller value is the value of some option. |
| QuicksortGame.IncreasingValue | src/short/impartial/games/quicksort.rs:45-53 | A strictly increasing sequence has value 0. |

## Left out

- `canonical_form`, the temperature and thermograph tests, `to_latex` and `to_latex_with_scale` (`src/domineering.rs`), and `SkiJumps::to_svg`. They depend on the game engine, the transposition table, float formatting and an SVG writer, none of which is part of this model.
- `VecGrid` is not part of this model. The Ski Jumps board is a rectangle of rows with the same `get`, `set`, `width` and `height`. `SkiJumps`' `Display` and `FromStr` go through `VecGrid` and are left out with it.
- `from_str` of both grid types only calls `parse`; `Parse` stands for both.
- The compound assignments of `Rational` (`+=`, `-=`, `*=`, `/=`) only rebind the receiver to the binary result; the binary operators stand for them.
- `Quicksort`'s `Display` (printing the elements with no separator) is left out.
- ExtendedRational.Mul: the product of two infinities is excluded by a precondition. The source's swapped arm calls `mul` again with the same pair, which never terminates.
- ExtendedRational.Parse: `nom_utils::lexeme` also skips white space around each token and is not part of this model. The numerator grammar is an optional `-` or `+` followed by digits, as `nom`'s `i64` parser is taken to accept.
- ExtendedRational.Add: `Rational64` is a fraction of unbounded integers here. No `i64` overflow of `Rational64` is modelled: not in sums, differences, products or quotients, and not in negation (`-Rational::new(i64::MIN, 1)`).
- DyadicRational.Add: `i32` overflow is a precondition (`AddFits`), as is `abs` of `i32::MIN` in `normalized`. The model does not prove the sum of two dyadic numbers dyadic: `rational` does not check it either.
- SkiJumps.Reductions: the `i64` accumulator is unbounded here; its overflow would need a board far larger than memory.
- QuicksortGame.Game: `Nimber::mex` is not part of this model. It is taken to be the least natural number not in the list (`Mex`), and a Grundy value is a natural rather than a `Nimber`.
- Quicksort.Pick: elements are naturals rather than `u32`; nothing in `pick` or `moves` depends on the width.
- QuicksortGame.MoveGames: the loop of `game` over its moves is a method of its own so that the recursion through `Game` has a measure. `game_moves` is its result.
- DomineeringSplit.Bfs: requires its start cell to be free and unvisited, the only way `decompositions` calls it. The queue can hold a cell twice, as in the source.
- The `gcd` crate is not part of this model. It is modelled as Euclid's algorithm on naturals (`Arith.Gcd`).
- SkiJumps.LeftMoves: the move list is characterized as a set only, with neither order nor multiplicity. The same holds for SkiJumps.RightMoves. The source promises no order either.
- Domineering.Parse: the corrected parse; the source's own behaviour is `Domineering.ParseAsWritten` (see Findings).

## Findings

| source | as written | input that shows it | evidently intended | confidence | as-written member | corrected member |
|---|---|---|---|---|---|---|
| src/domineering.rs:145-167 | After the character loop `Position::parse` returns the grid without checking that the last row is full. A short last row is read with its missing cells empty. | The rows `..` and `.` joined by the separator parse to a 2 by 2 grid whose cell (1, 1) is empty, though the text has only three cells. | Reject a last row shorter than the first (`x != width` after the loop), as `SmallBitGrid::parse` does (src/grid/small_bit_grid.rs:218-221). | not executed | Domineering.CutLastCell | Domineering.Parse |
| src/domineering.rs:145-167 | The same missing check lets a last row longer than the first through. Its extra cells are written at width * y + x, past the cells, as stray bits. | The rows `#` and `##` joined by the separator parse to a 1 by 2 position with both cells filled and bit 2 set. It prints like the parse of `#` and `#` joined, yet the derived equality tells the two apart. | Reject a last row of any other length than the first (`x != width` after the loop), as `SmallBitGrid::parse` does (src/grid/small_bit_grid.rs:218-221). | not executed | Domineering.LongLastRow | Domineering.Parse |
