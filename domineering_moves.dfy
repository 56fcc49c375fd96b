/** Domineering moves (`moves_for`, `left_moves`, `right_moves` in src/domineering.rs):
    a domino on two free cells, then `move_top_left`, then the list sorted by the derived
    order on positions with duplicates removed. */
module DomineeringMoves {
  import opened Bits
  import opened BitGrid
  import opened DomineeringTrim

  // ---------------------------------------------------------------------------------
  // The derived order on positions: width, then height, then the bits.

  predicate Less(a: Grid, b: Grid)
  {
    a.width < b.width
    || (a.width == b.width && (a.height < b.height || (a.height == b.height && a.grid < b.grid)))
  }

  lemma LessTotal(a: Grid, b: Grid)
    ensures a == b || Less(a, b) || Less(b, a)
    ensures !(Less(a, b) && Less(b, a)) && !Less(a, a)
  {
  }

  predicate StrictlyAscending(s: seq<Grid>)
  {
    forall i, j :: 0 <= i < j < |s| ==> Less(s[i], s[j])
  }

  /** Insert `m` into a strictly ascending list unless it is already there. */
  function Insert(s: seq<Grid>, m: Grid): (r: seq<Grid>)
    requires StrictlyAscending(s)
    ensures StrictlyAscending(r)
    ensures forall z :: z in r <==> z in s || z == m
    ensures |r| <= |s| + 1
  {
    if s == [] then [m]
    else if s[0] == m then s
    else if Less(m, s[0]) then [m] + s
    else
      var rest := Insert(s[1..], m);
      assert forall z :: z in s <==> z == s[0] || z in s[1..];
      TailAbove(s);
      LessTotal(m, s[0]);
      ConsAscending(s[0], rest);
      [s[0]] + rest
  }

  /** Every element after the first of a strictly ascending list is above the first. */
  lemma TailAbove(s: seq<Grid>)
    requires StrictlyAscending(s) && s != []
    ensures forall z :: z in s[1..] ==> Less(s[0], z)
  {
    forall z | z in s[1..] ensures Less(s[0], z) {
      var k :| 0 <= k < |s| - 1 && s[1..][k] == z;
      assert s[k + 1] == z;
    }
  }

  lemma ConsAscending(a: Grid, r: seq<Grid>)
    requires StrictlyAscending(r) && forall z :: z in r ==> Less(a, z)
    ensures StrictlyAscending([a] + r)
  {
    forall i, j | 0 <= i < j < |r| + 1 ensures Less(([a] + r)[i], ([a] + r)[j]) {
      if i == 0 {
        assert ([a] + r)[j] == r[j - 1];
        assert r[j - 1] in r;
      } else {
        assert ([a] + r)[i] == r[i - 1] && ([a] + r)[j] == r[j - 1];
      }
    }
  }

  /** `sort_unstable` followed by `dedup`: the strictly ascending list of the distinct
      elements. */
  function SortDedup(s: seq<Grid>): (r: seq<Grid>)
    ensures StrictlyAscending(r)
    ensures forall z :: z in r <==> z in s
    ensures |r| <= |s|
  {
    if s == [] then []
    else
      var r := Insert(SortDedup(s[..|s| - 1]), s[|s| - 1]);
      assert forall z :: z in s <==> z in s[..|s| - 1] || z == s[|s| - 1];
      r
  }

  /** The first element of a strictly ascending list is below every other element. */
  lemma AscendingHead(s: seq<Grid>, z: Grid)
    requires StrictlyAscending(s) && z in s && z != s[0]
    ensures Less(s[0], z)
  {
  }

  lemma SameElementsEmpty(a: seq<Grid>, b: seq<Grid>)
    requires forall z :: z in a <==> z in b
    ensures a == [] <==> b == []
  {
    if a != [] {
      assert a[0] in a;
    }
    if b != [] {
      assert b[0] in b;
    }
  }

  /** Two strictly ascending lists with the same elements are equal: the result does not
      depend on how the sort and the dedup are done. */
  lemma {:induction false} AscendingUnique(a: seq<Grid>, b: seq<Grid>)
    requires StrictlyAscending(a) && StrictlyAscending(b)
    requires forall z :: z in a <==> z in b
    ensures a == b
    decreases |a|
  {
    if a != [] && b != [] {
      TailAbove(a);
      TailAbove(b);
      var x, y := a[0], b[0];
      assert x in b && y in a;
      LessTotal(x, y);
      if x != y {
        AscendingHead(a, y);
        AscendingHead(b, x);
      }
      assert a == [a[0]] + a[1..];
      assert b == [b[0]] + b[1..];
      forall z | z in a[1..] ensures z in b[1..] {
        LessTotal(a[0], z);
        assert z in b;
      }
      forall z | z in b[1..] ensures z in a[1..] {
        LessTotal(b[0], z);
        assert z in a;
      }
      AscendingUnique(a[1..], b[1..]);
    } else {
      SameElementsEmpty(a, b);
    }
  }

  // ---------------------------------------------------------------------------------
  // Placing a domino

  /** Cells (x, y) and (x + dx, y + dy) are both on the board and free. */
  predicate CanPlace(g: Grid, dx: nat, dy: nat, x: nat, y: nat)
  {
    x + dx < g.width && y + dy < g.height && !Get(g, x, y) && !Get(g, x + dx, y + dy)
  }

  /** The position with cells (x, y) and (x + dx, y + dy) filled. */
  function Place(g: Grid, dx: nat, dy: nat, x: nat, y: nat): (r: Grid)
    requires Valid(g) && x + dx < g.width && y + dy < g.height
    ensures Valid(r) && r.width == g.width && r.height == g.height
  {
    IndexBound(g.width, g.height, x, y);
    IndexBound(g.width, g.height, x + dx, y + dy);
    Set(Set(g, x, y, true), x + dx, y + dy, true)
  }

  /** `m` is a move of the mover whose dominoes cover (x, y) and (x + dx, y + dy):
      a domino on two free cells, then trimmed. */
  ghost predicate IsMove(g: Grid, dx: nat, dy: nat, m: Grid)
  {
    Valid(g) && exists x: nat, y: nat :: CanPlace(g, dx, dy, x, y) && Trimmed(Place(g, dx, dy, x, y), m)
  }

  /** A domino takes two free places. */
  lemma PlaceFreeCells(g: Grid, dx: nat, dy: nat, x: nat, y: nat)
    requires Valid(g) && CanPlace(g, dx, dy, x, y) && dx + dy == 1
    ensures |FreeCells(Place(g, dx, dy, x, y))| + 2 == |FreeCells(g)|
  {
    IndexBound(g.width, g.height, x, y);
    IndexBound(g.width, g.height, x + dx, y + dy);
    var h := Set(g, x, y, true);
    FillCell(g, x, y);
    GetSet(g, x, y, true);
    assert !Get(h, x + dx, y + dy);
    FillCell(h, x + dx, y + dy);
  }

  /** Every move leaves two free places fewer, and is already trimmed. */
  lemma MoveShape(g: Grid, dx: nat, dy: nat, m: Grid)
    requires IsMove(g, dx, dy, m) && dx + dy == 1
    ensures |FreeCells(m)| + 2 == |FreeCells(g)|
    ensures Trimmed(m, m)
  {
    var x: nat, y: nat :| CanPlace(g, dx, dy, x, y) && Trimmed(Place(g, dx, dy, x, y), m);
    PlaceFreeCells(g, dx, dy, x, y);
    TrimKeepsFree(Place(g, dx, dy, x, y), m);
    TrimIdempotent(Place(g, dx, dy, x, y), m);
  }

  /** The moves found so far: every placement before (x, y) in row-major order. */
  ghost predicate FoundBefore(g: Grid, dx: nat, dy: nat, all: seq<Grid>, x: nat, y: nat)
    requires Valid(g)
  {
    (forall m :: m in all ==> IsMove(g, dx, dy, m))
    && forall x': nat, y': nat, m ::
         (y' < y || (y' == y && x' < x)) && CanPlace(g, dx, dy, x', y') && Trimmed(Place(g, dx, dy, x', y'), m)
         ==> m in all
  }

  /** Adding the trimmed placement at (x, y) keeps `FoundBefore` for the next cell. */
  lemma FoundNext(g: Grid, dx: nat, dy: nat, all: seq<Grid>, x: nat, y: nat, t: Grid)
    requires Valid(g) && FoundBefore(g, dx, dy, all, x, y)
    requires CanPlace(g, dx, dy, x, y) && Trimmed(Place(g, dx, dy, x, y), t)
    ensures FoundBefore(g, dx, dy, all + [t], x + 1, y)
  {
    forall m | m in all + [t] ensures IsMove(g, dx, dy, m) {
      if m !in all {
        assert m == t;
      }
    }
    forall m | Trimmed(Place(g, dx, dy, x, y), m) ensures m == t {
      TrimUnique(Place(g, dx, dy, x, y), m, t);
    }
  }

  /** After the last row every move has been found. */
  lemma FoundAll(g: Grid, dx: nat, dy: nat, all: seq<Grid>)
    requires Valid(g) && dx + dy == 1 && dy <= g.height && FoundBefore(g, dx, dy, all, 0, g.height - dy)
    ensures forall m :: m in all <==> IsMove(g, dx, dy, m)
    ensures forall m :: m in all ==> |FreeCells(m)| + 2 == |FreeCells(g)| && Trimmed(m, m)
  {
    forall m | IsMove(g, dx, dy, m) ensures m in all {
      var x: nat, y: nat :| CanPlace(g, dx, dy, x, y) && Trimmed(Place(g, dx, dy, x, y), m);
    }
    forall m | m in all ensures |FreeCells(m)| + 2 == |FreeCells(g)| && Trimmed(m, m) {
      MoveShape(g, dx, dy, m);
    }
  }

  /** `moves_for::<dx, dy>`: for every (x, y) with x < width - dx and y < height - dy
      whose two cells are free, the position with the domino placed, then trimmed; then
      sorted and deduplicated. A board with no rows or no columns has no moves. The
      result lists exactly the distinct moves, strictly ascending; each leaves two free
      places fewer and is already trimmed. */
  method MovesFor(g: Grid, dx: nat, dy: nat) returns (moves: seq<Grid>)
    requires Valid(g) && ((dx == 0 && dy == 1) || (dx == 1 && dy == 0))
    ensures g.width == 0 || g.height == 0 ==> moves == []
    ensures StrictlyAscending(moves)
    ensures forall m :: m in moves <==> IsMove(g, dx, dy, m)
    ensures forall m :: m in moves ==> |FreeCells(m)| + 2 == |FreeCells(g)| && Trimmed(m, m)
  {
    if g.height == 0 || g.width == 0 {
      return [];
    }
    var all: seq<Grid> := [];
    for y: nat := 0 to g.height - dy
      invariant FoundBefore(g, dx, dy, all, 0, y)
    {
      for x: nat := 0 to g.width - dx
        invariant FoundBefore(g, dx, dy, all, x, y)
      {
        if !Get(g, x, y) && !Get(g, x + dx, y + dy) {
          var placed := Place(g, dx, dy, x, y);
          var t := MoveTopLeft(placed);
          FoundNext(g, dx, dy, all, x, y, t);
          all := all + [t];
        }
      }
    }
    FoundAll(g, dx, dy, all);
    moves := SortDedup(all);
  }

  /** `left_moves`: Left places vertical dominoes, on (x, y) and (x, y + 1). */
  method LeftMoves(g: Grid) returns (moves: seq<Grid>)
    requires Valid(g)
    ensures StrictlyAscending(moves)
    ensures forall m :: m in moves <==> IsMove(g, 0, 1, m)
    ensures forall m :: m in moves ==> |FreeCells(m)| + 2 == |FreeCells(g)| && Trimmed(m, m)
  {
    moves := MovesFor(g, 0, 1);
  }

  /** `right_moves`: Right places horizontal dominoes, on (x, y) and (x + 1, y). */
  method RightMoves(g: Grid) returns (moves: seq<Grid>)
    requires Valid(g)
    ensures StrictlyAscending(moves)
    ensures forall m :: m in moves <==> IsMove(g, 1, 0, m)
    ensures forall m :: m in moves ==> |FreeCells(m)| + 2 == |FreeCells(g)| && Trimmed(m, m)
  {
    moves := MovesFor(g, 1, 0);
  }
}
