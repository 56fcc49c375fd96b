/** Splitting a Domineering position into its independent parts (`bfs` and
    `decompositions` in src/domineering.rs): a breadth-first search over free cells
    that share a side, one trimmed position per search. */
module DomineeringSplit {
  import opened Bits
  import opened BitGrid
  import opened DomineeringTrim

  type Cell = (nat, nat)

  predicate SameShape(a: Grid, b: Grid)
  {
    a.width == b.width && a.height == b.height
  }

  predicate OnBoard(g: Grid, c: Cell)
  {
    c.0 < g.width && c.1 < g.height
  }

  /** Two cells that share a side. */
  predicate Adjacent(a: Cell, b: Cell)
  {
    (a.0 + 1 == b.0 && a.1 == b.1) || (b.0 + 1 == a.0 && a.1 == b.1)
    || (a.0 == b.0 && a.1 + 1 == b.1) || (a.0 == b.0 && b.1 + 1 == a.1)
  }

  /** The neighbour of `c` in direction `d`, in the order `bfs` tries them:
      (1, 0), (-1, 0), (0, 1), (0, -1), computed as signed numbers. */
  function Step(c: Cell, d: nat): (int, int)
  {
    if d == 0 then (c.0 + 1, c.1)
    else if d == 1 then (c.0 - 1, c.1)
    else if d == 2 then (c.0, c.1 + 1)
    else (c.0, c.1 - 1)
  }

  /** The neighbour in direction `d` is on the board of `g`. */
  predicate StepOnBoard(g: Grid, c: Cell, d: nat)
  {
    var s := Step(c, d);
    0 <= s.0 < g.width && 0 <= s.1 < g.height
  }

  /** A cell the search may visit: on the board, free, and not visited before it. */
  predicate Fresh(g: Grid, v0: Grid, c: Cell)
  {
    OnBoard(g, c) && !Get(g, c.0, c.1) && !Get(v0, c.0, c.1)
  }

  /** `parent` shows that the cells of `order` are connected: `start` comes first and
      every later cell shares a side with an earlier one. */
  predicate Tree(start: Cell, order: seq<Cell>, parent: seq<nat>)
  {
    |parent| == |order| && (order != [] ==> order[0] == start)
    && forall i :: 0 < i < |order| ==> parent[i] < i && Adjacent(order[parent[i]], order[i])
  }

  /** The number of queue entries that are already visited. */
  function Revisits(q: seq<Cell>, w: Grid): nat
  {
    if q == [] then 0
    else Revisits(q[..|q| - 1], w) + (if Get(w, q[|q| - 1].0, q[|q| - 1].1) then 1 else 0)
  }

  lemma {:induction false} RevisitsFront(q: seq<Cell>, w: Grid)
    requires q != []
    ensures Revisits(q, w) == Revisits(q[1..], w) + (if Get(w, q[0].0, q[0].1) then 1 else 0)
    decreases |q|
  {
    if |q| > 1 {
      RevisitsFront(q[..|q| - 1], w);
      assert q[..|q| - 1][1..] == q[1..][..|q| - 2];
    }
  }

  lemma RevisitsSnoc(q: seq<Cell>, e: Cell, w: Grid)
    requires !Get(w, e.0, e.1)
    ensures Revisits(q + [e], w) == Revisits(q, w)
  {
    assert (q + [e])[..|q|] == q;
  }

  /** Setting a bit that is already set changes nothing. */
  lemma SetAgain(g: Grid, x: nat, y: nat)
    requires Index(g.width, x, y) < 64 && Get(g, x, y)
    ensures Set(g, x, y, true) == g
  {
    var n := Index(g.width, x, y);
    forall m | 0 <= m < 64 ensures Bit(SetBit(g.grid, n, true), m) == Bit(g.grid, m) {
      BitOfSetBit(g.grid, n, true, m);
    }
    SameBits(Set(g, x, y, true).grid, g.grid);
  }

  // ---------------------------------------------------------------------------------
  // The state of `bfs`

  /** The visited grid holds the cells visited before plus those of `order`; the
      component grid has exactly the cells of `order` free. */
  ghost predicate Marks(g: Grid, v0: Grid, w: Grid, comp: Grid, order: seq<Cell>)
  {
    forall x: nat, y: nat :: x < g.width && y < g.height ==>
      (Get(w, x, y) <==> Get(v0, x, y) || (x, y) in order) && (Get(comp, x, y) <==> (x, y) !in order)
  }

  /** Every queued cell is fresh and, once the search has started, next to a visited
      cell of `order` (the one `from` names). */
  ghost predicate Queue(g: Grid, v0: Grid, start: Cell, q: seq<Cell>, order: seq<Cell>, from: seq<nat>)
  {
    |from| == |q|
    && (forall k :: 0 <= k < |q| ==> Fresh(g, v0, q[k]))
    && (order == [] ==> q == [start])
    && (order != [] ==> forall k :: 0 <= k < |q| ==> from[k] < |order| && Adjacent(order[from[k]], q[k]))
  }

  /** Every free neighbour of a cell of `order` is visited or queued, `c` excepted
      unless `all`. */
  ghost predicate Frontier(g: Grid, w: Grid, q: seq<Cell>, order: seq<Cell>, c: Cell, all: bool)
  {
    forall i, x: nat, y: nat ::
      (0 <= i < |order| && (all || order[i] != c) && x < g.width && y < g.height
       && Adjacent(order[i], (x, y)) && !Get(g, x, y)) ==> Get(w, x, y) || (x, y) in q
  }

  ghost predicate BfsCommon(g: Grid, v0: Grid, start: Cell, q: seq<Cell>, w: Grid, comp: Grid,
                            order: seq<Cell>, parent: seq<nat>, from: seq<nat>)
  {
    Valid(g) && SameShape(g, v0) && SameShape(g, w) && SameShape(g, comp)
    && Marks(g, v0, w, comp, order) && Queue(g, v0, start, q, order, from) && Tree(start, order, parent)
    && forall i :: 0 <= i < |order| ==> Fresh(g, v0, order[i])
  }

  /** The invariant of the `while` loop of `bfs`. */
  ghost predicate BfsInv(g: Grid, v0: Grid, start: Cell, q: seq<Cell>, w: Grid, comp: Grid,
                         order: seq<Cell>, parent: seq<nat>, from: seq<nat>)
  {
    BfsCommon(g, v0, start, q, w, comp, order, parent, from) && Frontier(g, w, q, order, start, true)
  }

  /** The neighbour in direction `d` is handled: visited or queued when free. */
  ghost predicate Covered(g: Grid, w: Grid, q: seq<Cell>, c: Cell, d: nat)
  {
    var s := Step(c, d);
    StepOnBoard(g, c, d) && !Get(g, s.0 as nat, s.1 as nat) ==>
      Get(w, s.0 as nat, s.1 as nat) || (s.0 as nat, s.1 as nat) in q
  }

  /** The invariant of the direction loop, after `c` (entry `ci` of `order`) was popped. */
  ghost predicate PushInv(g: Grid, v0: Grid, start: Cell, q: seq<Cell>, w: Grid, comp: Grid,
                          order: seq<Cell>, parent: seq<nat>, from: seq<nat>, c: Cell, ci: nat, d: nat)
  {
    BfsCommon(g, v0, start, q, w, comp, order, parent, from) && Frontier(g, w, q, order, c, false)
    && ci < |order| && order[ci] == c && Get(w, c.0, c.1)
    && forall d' :: 0 <= d' < d ==> Covered(g, w, q, c, d')
  }

  lemma BfsStart(g: Grid, v0: Grid, start: Cell)
    requires Valid(g) && SameShape(g, v0) && Fresh(g, v0, start)
    ensures BfsInv(g, v0, start, [start], v0, Grid(g.width, g.height, U64_MAX), [], [], [0])
  {
    AllBitsOfMaxAndZero();
    forall x: nat, y: nat | x < g.width && y < g.height ensures Get(Grid(g.width, g.height, U64_MAX), x, y) {
      IndexBound(g.width, g.height, x, y);
    }
  }

  /** Marking `c` visited and clearing it in the component keeps `Marks` for `order'`. */
  lemma PopMarks(g: Grid, v0: Grid, w: Grid, comp: Grid, order: seq<Cell>, c: Cell,
                 w': Grid, comp': Grid, order': seq<Cell>)
    requires SameShape(g, v0) && SameShape(g, w) && SameShape(g, comp) && Marks(g, v0, w, comp, order)
    requires Fresh(g, v0, c) && Index(g.width, c.0, c.1) < 64
    requires w' == Set(w, c.0, c.1, true) && comp' == Set(comp, c.0, c.1, false)
    requires order' == if Get(w, c.0, c.1) then order else order + [c]
    ensures Marks(g, v0, w', comp', order')
  {
    GetSet(w, c.0, c.1, true);
    GetSet(comp, c.0, c.1, false);
    forall x: nat, y: nat | x < g.width && y < g.height
      ensures (Get(w', x, y) <==> Get(v0, x, y) || (x, y) in order')
      ensures (Get(comp', x, y) <==> (x, y) !in order')
    {
    }
  }

  /** The rest of the queue keeps its properties once `order` has grown to `order'`. */
  lemma PopQueue(g: Grid, v0: Grid, start: Cell, q: seq<Cell>, order: seq<Cell>, from: seq<nat>, order': seq<Cell>)
    requires Queue(g, v0, start, q, order, from) && q != []
    requires order' == order || order' == order + [q[0]]
    requires order' != []
    ensures Queue(g, v0, start, q[1..], order', from[1..])
  {
    forall k | 0 <= k < |q| - 1 ensures q[1..][k] == q[k + 1] && from[1..][k] == from[k + 1] {
    }
    if order != [] {
      forall k | 0 <= k < |q| - 1 ensures from[1..][k] < |order'| && Adjacent(order'[from[1..][k]], q[1..][k]) {
        assert from[k + 1] < |order| && order'[from[k + 1]] == order[from[k + 1]];
      }
    }
  }

  /** A new cell next to an earlier one (or the start, first) extends the tree. */
  lemma PopTree(start: Cell, order: seq<Cell>, parent: seq<nat>, c: Cell, f: nat)
    requires Tree(start, order, parent)
    requires order == [] ==> c == start
    requires order != [] ==> f < |order| && Adjacent(order[f], c)
    ensures Tree(start, order + [c], parent + [f])
  {
    var o, p := order + [c], parent + [f];
    forall i | 0 < i < |o| ensures p[i] < i && Adjacent(o[p[i]], o[i]) {
      if i < |order| {
        assert p[i] == parent[i] && o[i] == order[i] && o[parent[i]] == order[parent[i]];
      }
    }
  }

  /** Every cell of `order` but `c` still has its free neighbours visited or queued. */
  lemma PopFrontier(g: Grid, w: Grid, q: seq<Cell>, order: seq<Cell>, start: Cell, w': Grid, order': seq<Cell>)
    requires Frontier(g, w, q, order, start, true) && q != [] && SameShape(g, w) && Valid(g)
    requires OnBoard(g, q[0]) && Index(g.width, q[0].0, q[0].1) < 64
    requires w' == Set(w, q[0].0, q[0].1, true)
    requires order' == order || order' == order + [q[0]]
    ensures Frontier(g, w', q[1..], order', q[0], false)
  {
    var c := q[0];
    GetSet(w, c.0, c.1, true);
    forall i, x: nat, y: nat |
      0 <= i < |order'| && order'[i] != c && x < g.width && y < g.height && Adjacent(order'[i], (x, y)) && !Get(g, x, y)
      ensures Get(w', x, y) || (x, y) in q[1..]
    {
      assert i < |order| && order'[i] == order[i];
      if (x, y) != c && (x, y) in q {
        var k :| 0 <= k < |q| && q[k] == (x, y);
        assert q[1..][k - 1] == (x, y);
      }
    }
  }

  /** Popping the front cell, marking it visited and clearing it in the component. */
  lemma PopKeeps(g: Grid, v0: Grid, start: Cell, q: seq<Cell>, w: Grid, comp: Grid,
                 order: seq<Cell>, parent: seq<nat>, from: seq<nat>,
                 w': Grid, comp': Grid, order': seq<Cell>, parent': seq<nat>, ci: nat)
    requires BfsInv(g, v0, start, q, w, comp, order, parent, from) && q != []
    requires Index(g.width, q[0].0, q[0].1) < 64
    requires w' == Set(w, q[0].0, q[0].1, true) && comp' == Set(comp, q[0].0, q[0].1, false)
    requires !Get(w, q[0].0, q[0].1) ==> order' == order + [q[0]] && parent' == parent + [from[0]] && ci == |order|
    requires Get(w, q[0].0, q[0].1) ==> order' == order && parent' == parent && ci < |order| && order[ci] == q[0]
    ensures PushInv(g, v0, start, q[1..], w', comp', order', parent', from[1..], q[0], ci, 0)
  {
    var c := q[0];
    assert Fresh(g, v0, c);
    if !Get(w, c.0, c.1) {
      PopTree(start, order, parent, c, from[0]);
    }
    PopMarks(g, v0, w, comp, order, c, w', comp', order');
    PopQueue(g, v0, start, q, order, from, order');
    PopFrontier(g, w, q, order, start, w', order');
    GetSet(w, c.0, c.1, true);
    forall i | 0 <= i < |order'| ensures Fresh(g, v0, order'[i]) {
      if i < |order| {
        assert order'[i] == order[i];
      }
    }
  }

  /** Queueing the neighbour in direction `d`. */
  lemma PushOne(g: Grid, v0: Grid, start: Cell, q: seq<Cell>, w: Grid, comp: Grid,
                order: seq<Cell>, parent: seq<nat>, from: seq<nat>, c: Cell, ci: nat, d: nat)
    requires PushInv(g, v0, start, q, w, comp, order, parent, from, c, ci, d) && d < 4
    requires StepOnBoard(g, c, d)
    requires !Get(g, Step(c, d).0 as nat, Step(c, d).1 as nat) && !Get(w, Step(c, d).0 as nat, Step(c, d).1 as nat)
    ensures PushInv(g, v0, start, q + [(Step(c, d).0 as nat, Step(c, d).1 as nat)], w, comp, order, parent,
                    from + [ci], c, ci, d + 1)
  {
    var e := (Step(c, d).0 as nat, Step(c, d).1 as nat);
    assert Adjacent(c, e);
    assert !Get(v0, e.0, e.1);
    var q', from' := q + [e], from + [ci];
    forall k | 0 <= k < |q| ensures q'[k] == q[k] && from'[k] == from[k] {
    }
    assert q'[|q|] == e && from'[|q|] == ci;
    assert Queue(g, v0, start, q', order, from');
    assert BfsCommon(g, v0, start, q', w, comp, order, parent, from');
    assert Frontier(g, w, q', order, c, false);
    assert Covered(g, w, q', c, d);
    forall d' | 0 <= d' < d ensures Covered(g, w, q', c, d') {
      assert Covered(g, w, q, c, d');
    }
  }

  /** Passing over a neighbour that is off the board, filled or visited. */
  lemma PushNone(g: Grid, v0: Grid, start: Cell, q: seq<Cell>, w: Grid, comp: Grid,
                 order: seq<Cell>, parent: seq<nat>, from: seq<nat>, c: Cell, ci: nat, d: nat)
    requires PushInv(g, v0, start, q, w, comp, order, parent, from, c, ci, d) && d < 4
    requires StepOnBoard(g, c, d) ==>
      Get(g, Step(c, d).0 as nat, Step(c, d).1 as nat) || Get(w, Step(c, d).0 as nat, Step(c, d).1 as nat)
    ensures PushInv(g, v0, start, q, w, comp, order, parent, from, c, ci, d + 1)
  {
  }

  /** The four directions reach every cell that shares a side with `c`. */
  lemma CoveredNeighbour(g: Grid, w: Grid, q: seq<Cell>, c: Cell, x: nat, y: nat)
    requires forall d :: 0 <= d < 4 ==> Covered(g, w, q, c, d)
    requires x < g.width && y < g.height && Adjacent(c, (x, y)) && !Get(g, x, y)
    ensures Get(w, x, y) || (x, y) in q
  {
    if x == c.0 + 1 {
      assert Covered(g, w, q, c, 0);
    } else if x + 1 == c.0 {
      assert Covered(g, w, q, c, 1);
    } else if y == c.1 + 1 {
      assert Covered(g, w, q, c, 2);
    } else {
      assert Covered(g, w, q, c, 3);
    }
  }

  /** With all four directions handled, `c`'s neighbours are covered too. */
  lemma PushDone(g: Grid, v0: Grid, start: Cell, q: seq<Cell>, w: Grid, comp: Grid,
                 order: seq<Cell>, parent: seq<nat>, from: seq<nat>, c: Cell, ci: nat)
    requires PushInv(g, v0, start, q, w, comp, order, parent, from, c, ci, 4)
    ensures BfsInv(g, v0, start, q, w, comp, order, parent, from)
  {
    forall i, x: nat, y: nat |
      0 <= i < |order| && x < g.width && y < g.height && Adjacent(order[i], (x, y)) && !Get(g, x, y)
      ensures Get(w, x, y) || (x, y) in q
    {
      if order[i] == c {
        CoveredNeighbour(g, w, q, c, x, y);
      }
    }
  }

  /** The direction loop of `bfs`: queue each neighbour of `c` that is on the board,
      free and not visited. */
  method PushNeighbours(g: Grid, ghost v0: Grid, ghost start: Cell, q: seq<Cell>, v: Grid, ghost comp: Grid,
                        ghost order: seq<Cell>, ghost parent: seq<nat>, ghost from: seq<nat>, c: Cell, ghost ci: nat)
    returns (q': seq<Cell>, ghost from': seq<nat>)
    requires PushInv(g, v0, start, q, v, comp, order, parent, from, c, ci, 0)
    ensures PushInv(g, v0, start, q', v, comp, order, parent, from', c, ci, 4)
    ensures Revisits(q', v) == Revisits(q, v)
  {
    q', from' := q, from;
    for d: nat := 0 to 4
      invariant PushInv(g, v0, start, q', v, comp, order, parent, from', c, ci, d)
      invariant Revisits(q', v) == Revisits(q, v)
    {
      var s := Step(c, d);
      if 0 <= s.0 < g.width && 0 <= s.1 < g.height && !Get(g, s.0 as nat, s.1 as nat) && !Get(v, s.0 as nat, s.1 as nat) {
        PushOne(g, v0, start, q', v, comp, order, parent, from', c, ci, d);
        RevisitsSnoc(q', (s.0 as nat, s.1 as nat), v);
        q' := q' + [(s.0 as nat, s.1 as nat)];
        from' := from' + [ci];
      } else {
        PushNone(g, v0, start, q', v, comp, order, parent, from', c, ci, d);
      }
    }
  }

  /** One turn of the `while` loop of `bfs`: pop the front cell, mark it visited and
      clear it in the component, then queue its neighbours. Either one more cell is
      visited, or the visited grid is unchanged and one fewer visited cell is queued. */
  method Visit(g: Grid, ghost v0: Grid, ghost start: Cell, q: seq<Cell>, v: Grid, grid: Grid,
               ghost order: seq<Cell>, ghost parent: seq<nat>, ghost from: seq<nat>)
    returns (q': seq<Cell>, v': Grid, grid': Grid, ghost order': seq<Cell>, ghost parent': seq<nat>, ghost from': seq<nat>)
    requires BfsInv(g, v0, start, q, v, grid, order, parent, from) && q != []
    ensures BfsInv(g, v0, start, q', v', grid', order', parent', from')
    ensures |FreeCells(v')| < |FreeCells(v)| || (v' == v && Revisits(q', v') < Revisits(q, v))
  {
    var c := q[0];
    IndexBound(g.width, g.height, c.0, c.1);
    ghost var ci: nat;
    order', parent' := order, parent;
    if !Get(v, c.0, c.1) {
      ci, order', parent' := |order|, order + [c], parent + [from[0]];
      FillCell(v, c.0, c.1);
    } else {
      assert c in order;
      ci :| ci < |order| && order[ci] == c;
      SetAgain(v, c.0, c.1);
      RevisitsFront(q, v);
    }
    PopKeeps(g, v0, start, q, v, grid, order, parent, from,
             Set(v, c.0, c.1, true), Set(grid, c.0, c.1, false), order', parent', ci);
    v' := Set(v, c.0, c.1, true);
    grid' := Set(grid, c.0, c.1, false);
    q', from' := PushNeighbours(g, v0, start, q[1..], v', grid', order', parent', from[1..], c, ci);
    PushDone(g, v0, start, q', v', grid', order', parent', from', c, ci);
  }

  /** What a search from `start` leaves: the cells of `order` are the newly visited
      ones, they were fresh, `parent` connects them to `start`, the component grid has
      exactly them free, and every free neighbour of one of them is now visited. */
  ghost predicate Searched(g: Grid, v0: Grid, start: Cell, v: Grid, comp: Grid, order: seq<Cell>, parent: seq<nat>)
  {
    SameShape(g, v) && SameShape(g, comp) && Valid(comp)
    && order != [] && Tree(start, order, parent)
    && (forall i :: 0 <= i < |order| ==> Fresh(g, v0, order[i]))
    && Marks(g, v0, v, comp, order)
    && Frontier(g, v, [], order, start, true)
  }

  /** `bfs`: starting from a free, unvisited cell, visit every free cell reachable
      through free cells that share a side, marking each in `visited` and clearing it in
      a filled copy of the board, which is then trimmed. The new visited cells are those
      of `order`, which `parent` shows connected to the start; every free neighbour of
      one of them ends up visited; and the result has as many free places as the
      component. */
  method Bfs(g: Grid, visited: Grid, x: nat, y: nat)
    returns (r: Grid, v: Grid, ghost comp: Grid, ghost order: seq<Cell>, ghost parent: seq<nat>)
    requires Valid(g) && SameShape(g, visited) && Fresh(g, visited, (x, y))
    ensures Searched(g, visited, (x, y), v, comp, order, parent)
    ensures Trimmed(comp, r) && Valid(r) && |FreeCells(r)| == |FreeCells(comp)|
  {
    var grid := Grid(g.width, g.height, U64_MAX);
    var q: seq<Cell> := [(x, y)];
    v := visited;
    ghost var from: seq<nat> := [0];
    order, parent := [], [];
    BfsStart(g, visited, (x, y));
    while q != []
      invariant BfsInv(g, visited, (x, y), q, v, grid, order, parent, from)
      decreases |FreeCells(v)|, Revisits(q, v)
    {
      q, v, grid, order, parent, from := Visit(g, visited, (x, y), q, v, grid, order, parent, from);
    }
    comp := grid;
    r := MoveTopLeft(grid);
    TrimKeepsFree(grid, r);
  }

  // ---------------------------------------------------------------------------------
  // `decompositions`

  /** Cell `a` comes before cell `b` in the row-major scan. */
  predicate ScanBefore(a: Cell, b: Cell)
  {
    a.1 < b.1 || (a.1 == b.1 && a.0 < b.0)
  }

  /** Every free neighbour of a cell of `order` is a cell of `order`. */
  ghost predicate RegionClosed(g: Grid, order: seq<Cell>)
  {
    forall i, x: nat, y: nat ::
      (0 <= i < |order| && x < g.width && y < g.height && Adjacent(order[i], (x, y)) && !Get(g, x, y))
      ==> (x, y) in order
  }

  /** The cells of `order` are free in `g`, connected to `first` (the first of them in
      scan order) and closed under free neighbours: a component of the free cells. */
  ghost predicate Region(g: Grid, first: Cell, order: seq<Cell>, parent: seq<nat>)
  {
    order != [] && Tree(first, order, parent)
    && (forall i :: 0 <= i < |order| ==>
          OnBoard(g, order[i]) && !Get(g, order[i].0, order[i].1) && !ScanBefore(order[i], first))
    && RegionClosed(g, order)
  }

  /** `comp` is the board with every cell outside `order` filled, and `d` is `comp`
      trimmed, with at least one free place. */
  ghost predicate Piece(g: Grid, comp: Grid, order: seq<Cell>, d: Grid)
  {
    SameShape(g, comp) && Valid(comp)
    && (forall x: nat, y: nat :: x < g.width && y < g.height ==> (!Get(comp, x, y) <==> (x, y) in order))
    && Trimmed(comp, d) && Valid(d) && FreeCount(d) >= 1
  }

  ghost predicate Regions(g: Grid, firsts: seq<Cell>, orders: seq<seq<Cell>>, parents: seq<seq<nat>>)
  {
    |orders| == |firsts| && |parents| == |firsts|
    && forall i :: 0 <= i < |firsts| ==> Region(g, firsts[i], orders[i], parents[i])
  }

  ghost predicate Pieces(g: Grid, comps: seq<Grid>, orders: seq<seq<Cell>>, ds: seq<Grid>)
  {
    |comps| == |ds| && |orders| == |ds|
    && forall i :: 0 <= i < |ds| ==> Piece(g, comps[i], orders[i], ds[i])
  }

  /** The first cells are in scan order. */
  predicate Ascending(firsts: seq<Cell>)
  {
    forall i, j :: 0 <= i < j < |firsts| ==> ScanBefore(firsts[i], firsts[j])
  }

  /** No cell is in two parts. */
  ghost predicate Disjoint(orders: seq<seq<Cell>>)
  {
    forall i, j, k :: 0 <= i < j < |orders| && 0 <= k < |orders[j]| ==> orders[j][k] !in orders[i]
  }

  /** The visited cells are exactly the cells of the parts found so far. */
  ghost predicate Owners(g: Grid, w: Grid, orders: seq<seq<Cell>>)
  {
    (forall x: nat, y: nat :: x < g.width && y < g.height && Get(w, x, y) ==>
       exists i :: 0 <= i < |orders| && (x, y) in orders[i])
    && (forall i, k :: 0 <= i < |orders| && 0 <= k < |orders[i]| ==>
          OnBoard(g, orders[i][k]) && Get(w, orders[i][k].0, orders[i][k].1))
  }

  /** Every free cell before (x, y) in scan order is visited. */
  ghost predicate ScannedTo(g: Grid, w: Grid, x: nat, y: nat)
  {
    forall x': nat, y': nat :: x' < g.width && y' < g.height && ScanBefore((x', y'), (x, y)) && !Get(g, x', y')
      ==> Get(w, x', y')
  }

  /** Every first cell is on the board and before (x, y). */
  predicate FirstsBefore(g: Grid, firsts: seq<Cell>, x: nat, y: nat)
  {
    forall i :: 0 <= i < |firsts| ==> firsts[i].0 < g.width && ScanBefore(firsts[i], (x, y))
  }

  /** The free places of a list of positions, added up. */
  function SumFree(ds: seq<Grid>): nat
  {
    if ds == [] then 0 else SumFree(ds[..|ds| - 1]) + FreeCount(ds[|ds| - 1])
  }

  lemma DecStart(g: Grid)
    ensures Owners(g, Grid(g.width, g.height, 0), [])
    ensures ScannedTo(g, Grid(g.width, g.height, 0), 0, 0)
    ensures |FreeCells(Grid(g.width, g.height, 0))| == |AllCells(g.width, g.height)|
  {
    var w := Grid(g.width, g.height, 0);
    AllBitsOfMaxAndZero();
    assert FreeCells(w) == AllCells(g.width, g.height);
  }

  /** Passing over a cell that is filled or already visited. */
  lemma DecSkip(g: Grid, w: Grid, firsts: seq<Cell>, x: nat, y: nat)
    requires ScannedTo(g, w, x, y) && FirstsBefore(g, firsts, x, y) && x < g.width && y < g.height
    requires Get(g, x, y) || Get(w, x, y)
    ensures ScannedTo(g, w, x + 1, y) && FirstsBefore(g, firsts, x + 1, y)
  {
  }

  /** The end of a row is the start of the next. */
  lemma DecRow(g: Grid, w: Grid, firsts: seq<Cell>, y: nat)
    requires ScannedTo(g, w, g.width, y) && FirstsBefore(g, firsts, g.width, y)
    ensures ScannedTo(g, w, 0, y + 1) && FirstsBefore(g, firsts, 0, y + 1)
  {
  }

  /** The free cells of the visited grid before a search are those after it plus those
      of the component. */
  lemma SplitCount(g: Grid, w: Grid, w': Grid, comp: Grid)
    requires SameShape(g, w) && SameShape(g, w') && SameShape(g, comp)
    requires forall x: nat, y: nat :: x < g.width && y < g.height ==>
      (!Get(w, x, y) <==> !Get(w', x, y) || !Get(comp, x, y)) && (Get(w', x, y) || Get(comp, x, y))
    ensures |FreeCells(w)| == |FreeCells(w')| + |FreeCells(comp)|
  {
    assert FreeCells(w) == FreeCells(w') + FreeCells(comp);
    assert FreeCells(w') * FreeCells(comp) == {};
  }

  /** A cell not visited is in no earlier part, since those cells are all visited. */
  lemma NotInEarlier(g: Grid, w: Grid, orders: seq<seq<Cell>>, i: nat, c: Cell)
    requires Owners(g, w, orders) && i < |orders| && !Get(w, c.0, c.1)
    ensures c !in orders[i]
  {
    forall k | 0 <= k < |orders[i]| ensures orders[i][k] != c {
      assert Get(w, orders[i][k].0, orders[i][k].1);
    }
  }

  /** A free cell not visited has no visited neighbour: the neighbour's part is closed
      and would hold the cell, which would then be visited. */
  lemma OutsideParts(g: Grid, w: Grid, firsts: seq<Cell>, orders: seq<seq<Cell>>, parents: seq<seq<nat>>,
                     c: Cell, n: Cell)
    requires Regions(g, firsts, orders, parents) && Owners(g, w, orders)
    requires OnBoard(g, c) && !Get(g, c.0, c.1) && !Get(w, c.0, c.1) && OnBoard(g, n) && Adjacent(n, c)
    ensures !Get(w, n.0, n.1)
  {
    forall j, k | 0 <= j < |orders| && 0 <= k < |orders[j]| ensures orders[j][k] != n {
      NotInEarlier(g, w, orders, j, c);
      assert RegionClosed(g, orders[j]);
    }
  }

  /** The search from (x, y) found a closed set: a free neighbour visited before would
      belong to an earlier part, which is closed and would hold the cell too. */
  lemma NewRegionClosed(g: Grid, w: Grid, firsts: seq<Cell>, orders: seq<seq<Cell>>, parents: seq<seq<nat>>,
                        x: nat, y: nat, w': Grid, comp: Grid, order: seq<Cell>, parent: seq<nat>)
    requires Regions(g, firsts, orders, parents) && Owners(g, w, orders)
    requires Searched(g, w, (x, y), w', comp, order, parent)
    ensures RegionClosed(g, order)
  {
    forall i, x': nat, y': nat |
      0 <= i < |order| && x' < g.width && y' < g.height && Adjacent(order[i], (x', y')) && !Get(g, x', y')
      ensures (x', y') in order
    {
      assert Fresh(g, w, order[i]);
      OutsideParts(g, w, firsts, orders, parents, order[i], (x', y'));
    }
  }

  /** The component found from (x, y) is a region whose first cell is (x, y). */
  lemma NewRegion(g: Grid, w: Grid, firsts: seq<Cell>, orders: seq<seq<Cell>>, parents: seq<seq<nat>>,
                  x: nat, y: nat, w': Grid, comp: Grid, order: seq<Cell>, parent: seq<nat>)
    requires Regions(g, firsts, orders, parents) && Owners(g, w, orders) && ScannedTo(g, w, x, y)
    requires Searched(g, w, (x, y), w', comp, order, parent)
    ensures Region(g, (x, y), order, parent)
  {
    NewRegionClosed(g, w, firsts, orders, parents, x, y, w', comp, order, parent);
    forall i | 0 <= i < |order| ensures !ScanBefore(order[i], (x, y)) {
      assert Fresh(g, w, order[i]);
    }
  }

  /** The trimmed component of the search is a piece. */
  lemma NewPiece(g: Grid, w: Grid, x: nat, y: nat, r: Grid, w': Grid, comp: Grid, order: seq<Cell>, parent: seq<nat>)
    requires Searched(g, w, (x, y), w', comp, order, parent)
    requires Trimmed(comp, r) && Valid(r) && |FreeCells(r)| == |FreeCells(comp)|
    ensures Piece(g, comp, order, r)
  {
    assert order[0] == (x, y) && Fresh(g, w, (x, y));
    assert (x, y) in FreeCells(comp);
    FreeCountIsCells(r);
  }

  lemma RegionsSnoc(g: Grid, firsts: seq<Cell>, orders: seq<seq<Cell>>, parents: seq<seq<nat>>,
                    first: Cell, order: seq<Cell>, parent: seq<nat>)
    requires Regions(g, firsts, orders, parents) && Region(g, first, order, parent)
    ensures Regions(g, firsts + [first], orders + [order], parents + [parent])
  {
    var f, o, p := firsts + [first], orders + [order], parents + [parent];
    forall i | 0 <= i < |f| ensures Region(g, f[i], o[i], p[i]) {
      if i < |firsts| {
        assert f[i] == firsts[i] && o[i] == orders[i] && p[i] == parents[i];
      }
    }
  }

  lemma PiecesSnoc(g: Grid, comps: seq<Grid>, orders: seq<seq<Cell>>, ds: seq<Grid>,
                   comp: Grid, order: seq<Cell>, d: Grid)
    requires Pieces(g, comps, orders, ds) && Piece(g, comp, order, d)
    ensures Pieces(g, comps + [comp], orders + [order], ds + [d])
  {
    var c, o, e := comps + [comp], orders + [order], ds + [d];
    forall i | 0 <= i < |e| ensures Piece(g, c[i], o[i], e[i]) {
      if i < |ds| {
        assert c[i] == comps[i] && o[i] == orders[i] && e[i] == ds[i];
      }
    }
  }

  lemma AscendingSnoc(g: Grid, firsts: seq<Cell>, x: nat, y: nat)
    requires Ascending(firsts) && FirstsBefore(g, firsts, x, y) && x < g.width
    ensures Ascending(firsts + [(x, y)]) && FirstsBefore(g, firsts + [(x, y)], x + 1, y)
  {
    var f := firsts + [(x, y)];
    forall i, j | 0 <= i < j < |f| ensures ScanBefore(f[i], f[j]) {
      assert f[i] == firsts[i];
      if j < |firsts| {
        assert f[j] == firsts[j];
      }
    }
    forall i | 0 <= i < |f| ensures f[i].0 < g.width && ScanBefore(f[i], (x + 1, y)) {
      if i < |firsts| {
        assert f[i] == firsts[i];
      }
    }
  }

  /** The cells of the new part were not visited, so they are in no earlier part. */
  lemma DisjointSnoc(g: Grid, w: Grid, orders: seq<seq<Cell>>, order: seq<Cell>)
    requires Disjoint(orders) && Owners(g, w, orders)
    requires forall k :: 0 <= k < |order| ==> !Get(w, order[k].0, order[k].1)
    ensures Disjoint(orders + [order])
  {
    var o := orders + [order];
    forall i, j, k | 0 <= i < j < |o| && 0 <= k < |o[j]| ensures o[j][k] !in o[i] {
      assert o[i] == orders[i];
      if j < |orders| {
        assert o[j] == orders[j];
      } else {
        NotInEarlier(g, w, orders, i, order[k]);
      }
    }
  }

  /** After the search the visited cells are those of the parts, the new one included. */
  lemma NewOwners(g: Grid, w: Grid, orders: seq<seq<Cell>>, x: nat, y: nat,
                  w': Grid, comp: Grid, order: seq<Cell>, parent: seq<nat>)
    requires Owners(g, w, orders) && SameShape(g, w)
    requires Searched(g, w, (x, y), w', comp, order, parent)
    ensures Owners(g, w', orders + [order])
  {
    var orders' := orders + [order];
    forall x': nat, y': nat | x' < g.width && y' < g.height && Get(w', x', y')
      ensures exists i :: 0 <= i < |orders'| && (x', y') in orders'[i]
    {
      if Get(w, x', y') {
        var i :| 0 <= i < |orders| && (x', y') in orders[i];
        assert orders'[i] == orders[i];
      } else {
        assert orders'[|orders|] == order;
      }
    }
    forall i, k | 0 <= i < |orders'| && 0 <= k < |orders'[i]|
      ensures OnBoard(g, orders'[i][k]) && Get(w', orders'[i][k].0, orders'[i][k].1)
    {
      if i < |orders| {
        assert orders'[i] == orders[i];
        assert OnBoard(g, orders[i][k]) && Get(w, orders[i][k].0, orders[i][k].1);
      } else {
        assert Fresh(g, w, order[k]);
      }
    }
  }

  /** After the search from (x, y) every free cell up to (x, y) is visited, and the
      count of free places moves from the visited grid to the new part. */
  lemma NewScan(g: Grid, w: Grid, ds: seq<Grid>, x: nat, y: nat,
                r: Grid, w': Grid, comp: Grid, order: seq<Cell>, parent: seq<nat>)
    requires ScannedTo(g, w, x, y) && SameShape(g, w) && OnBoard(g, (x, y))
    requires Searched(g, w, (x, y), w', comp, order, parent)
    requires |FreeCells(r)| == |FreeCells(comp)|
    requires SumFree(ds) + |FreeCells(w)| == |AllCells(g.width, g.height)|
    ensures ScannedTo(g, w', x + 1, y)
    ensures SumFree(ds + [r]) + |FreeCells(w')| == |AllCells(g.width, g.height)|
  {
    assert order[0] == (x, y);
    forall x': nat, y': nat | x' < g.width && y' < g.height
      ensures (!Get(w, x', y') <==> !Get(w', x', y') || !Get(comp, x', y')) && (Get(w', x', y') || Get(comp, x', y'))
    {
      if (x', y') in order {
        var k :| 0 <= k < |order| && order[k] == (x', y');
        assert Fresh(g, w, order[k]);
      }
    }
    SplitCount(g, w, w', comp);
    FreeCountIsCells(r);
    assert (ds + [r])[..|ds|] == ds;
  }

  /** At the end of the scan the visited cells are exactly the free ones, so every free
      cell is in a part and the parts have all the free places between them. */
  lemma DecEnd(g: Grid, w: Grid, ds: seq<Grid>, comps: seq<Grid>, firsts: seq<Cell>,
               orders: seq<seq<Cell>>, parents: seq<seq<nat>>)
    requires SameShape(g, w) && Regions(g, firsts, orders, parents) && Owners(g, w, orders)
    requires ScannedTo(g, w, 0, g.height)
    requires SumFree(ds) + |FreeCells(w)| == |AllCells(g.width, g.height)|
    ensures forall x: nat, y: nat :: x < g.width && y < g.height && !Get(g, x, y) ==>
      exists i :: 0 <= i < |orders| && (x, y) in orders[i]
    ensures SumFree(ds) == FreeCount(g)
  {
    forall x: nat, y: nat | x < g.width && y < g.height
      ensures Get(w, x, y) <==> !Get(g, x, y)
    {
      if Get(w, x, y) {
        var i :| 0 <= i < |orders| && (x, y) in orders[i];
        var k :| 0 <= k < |orders[i]| && orders[i][k] == (x, y);
        assert Region(g, firsts[i], orders[i], parents[i]);
      }
    }
    assert FreeCells(w) + FreeCells(g) == AllCells(g.width, g.height);
    assert FreeCells(w) * FreeCells(g) == {};
    FreeCountIsCells(g);
  }

  /** `decompositions`: scan the cells in row-major order and, at each free cell not
      yet visited, run `bfs` from it and append the result. The parts are the
      components of the free cells, each once, in the scan order of their first cells;
      each part is its component on an otherwise filled board, trimmed; and their free
      places add up to those of the position. */
  method Decompositions(g: Grid)
    returns (ds: seq<Grid>, ghost comps: seq<Grid>, ghost firsts: seq<Cell>,
             ghost orders: seq<seq<Cell>>, ghost parents: seq<seq<nat>>)
    requires Valid(g)
    ensures Regions(g, firsts, orders, parents) && Pieces(g, comps, orders, ds)
    ensures Ascending(firsts) && Disjoint(orders)
    ensures forall x: nat, y: nat :: x < g.width && y < g.height && !Get(g, x, y) ==>
      exists i :: 0 <= i < |orders| && (x, y) in orders[i]
    ensures SumFree(ds) == FreeCount(g)
  {
    var visited := Grid(g.width, g.height, 0);
    ds, comps, firsts, orders, parents := [], [], [], [], [];
    DecStart(g);
    for y: nat := 0 to g.height
      invariant SameShape(g, visited)
      invariant Regions(g, firsts, orders, parents) && Pieces(g, comps, orders, ds)
      invariant Ascending(firsts) && Disjoint(orders) && Owners(g, visited, orders)
      invariant ScannedTo(g, visited, 0, y) && FirstsBefore(g, firsts, 0, y)
      invariant SumFree(ds) + |FreeCells(visited)| == |AllCells(g.width, g.height)|
    {
      for x: nat := 0 to g.width
        invariant SameShape(g, visited)
        invariant Regions(g, firsts, orders, parents) && Pieces(g, comps, orders, ds)
        invariant Ascending(firsts) && Disjoint(orders) && Owners(g, visited, orders)
        invariant ScannedTo(g, visited, x, y) && FirstsBefore(g, firsts, x, y)
        invariant SumFree(ds) + |FreeCells(visited)| == |AllCells(g.width, g.height)|
      {
        if !Get(g, x, y) && !Get(visited, x, y) {
          var d, v, comp, order, parent := Bfs(g, visited, x, y);
          NewRegion(g, visited, firsts, orders, parents, x, y, v, comp, order, parent);
          NewPiece(g, visited, x, y, d, v, comp, order, parent);
          RegionsSnoc(g, firsts, orders, parents, (x, y), order, parent);
          PiecesSnoc(g, comps, orders, ds, comp, order, d);
          AscendingSnoc(g, firsts, x, y);
          DisjointSnoc(g, visited, orders, order);
          NewOwners(g, visited, orders, x, y, v, comp, order, parent);
          NewScan(g, visited, ds, x, y, d, v, comp, order, parent);
          visited := v;
          ds, comps, firsts, orders, parents := ds + [d], comps + [comp], firsts + [(x, y)], orders + [order], parents + [parent];
        } else {
          DecSkip(g, visited, firsts, x, y);
        }
      }
      DecRow(g, visited, firsts, y);
    }
    DecEnd(g, visited, ds, comps, firsts, orders, parents);
  }
}
