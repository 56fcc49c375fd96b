/** The impartial game Quicksort (src/short/impartial/games/quicksort.rs): a move picks a
    pivot and partitions the list around it, the smaller elements first and the larger
    ones after, each group in its original order. Copies of the pivot value other than the
    pivot itself are dropped. */
module Quicksort {

  /** The elements of `s` below `v`, in order. */
  function Below(s: seq<nat>, v: nat): seq<nat>
  {
    if s == [] then []
    else Below(s[..|s| - 1], v) + (if s[|s| - 1] < v then [s[|s| - 1]] else [])
  }

  /** The elements of `s` above `v`, in order. */
  function Above(s: seq<nat>, v: nat): seq<nat>
  {
    if s == [] then []
    else Above(s[..|s| - 1], v) + (if s[|s| - 1] > v then [s[|s| - 1]] else [])
  }

  /** The position reached by `pick(pivot)`. */
  function PickOf(s: seq<nat>, pivot: nat): seq<nat>
    requires pivot < |s|
  {
    Below(s, s[pivot]) + [s[pivot]] + Above(s, s[pivot])
  }

  /** `pick`: one pass pushing the smaller elements, the pivot, one pass pushing the
      larger elements. */
  method Pick(s: seq<nat>, pivot: nat) returns (r: seq<nat>)
    requires pivot < |s|
    ensures r == PickOf(s, pivot)
  {
    var v := s[pivot];
    r := [];
    for i := 0 to |s|
      invariant r == Below(s[..i], v)
    {
      assert s[..i + 1][..i] == s[..i];
      if s[i] < v {
        r := r + [s[i]];
      }
    }
    assert s[..|s|] == s;
    r := r + [v];
    for i := 0 to |s|
      invariant r == Below(s, v) + [v] + Above(s[..i], v)
    {
      assert s[..i + 1][..i] == s[..i];
      if s[i] > v {
        r := r + [s[i]];
      }
    }
    assert s[..|s|] == s;
  }

  // ---------------------------------------------------------------------------------
  // What a pick keeps

  /** The last element of a list joins exactly one of its parts. */
  lemma PartsStep(s: seq<nat>, v: nat)
    requires s != []
    ensures var n, y := |s| - 1, s[|s| - 1];
      && Below(s, v) == (if y < v then Below(s[..n], v) + [y] else Below(s[..n], v))
      && Above(s, v) == (if y > v then Above(s[..n], v) + [y] else Above(s[..n], v))
  {
    assert Below(s[..|s| - 1], v) + [] == Below(s[..|s| - 1], v);
    assert Above(s[..|s| - 1], v) + [] == Above(s[..|s| - 1], v);
  }

  lemma LastSplit(s: seq<nat>)
    requires s != []
    ensures s[..|s| - 1] + [s[|s| - 1]] == s
  {
  }

  /** The elements below `v`, copies included, and nothing else. */
  lemma {:induction false} BelowCount(s: seq<nat>, v: nat)
    ensures forall x :: multiset(Below(s, v))[x] == if x < v then multiset(s)[x] else 0
    decreases |s|
  {
    if s != [] {
      var n := |s| - 1;
      BelowCount(s[..n], v);
      LastSplit(s);
    }
  }

  /** The elements above `v`, copies included, and nothing else. */
  lemma {:induction false} AboveCount(s: seq<nat>, v: nat)
    ensures forall x :: multiset(Above(s, v))[x] == if x > v then multiset(s)[x] else 0
    decreases |s|
  {
    if s != [] {
      var n := |s| - 1;
      AboveCount(s[..n], v);
      LastSplit(s);
    }
  }

  /** A pick holds the pivot value exactly once and every other value as often as the
      list does; so it is at most as long as the list. */
  lemma PickCount(s: seq<nat>, pivot: nat)
    requires pivot < |s|
    ensures forall x :: multiset(PickOf(s, pivot))[x] == if x == s[pivot] then 1 else multiset(s)[x]
    ensures |PickOf(s, pivot)| == |s| - multiset(s)[s[pivot]] + 1 <= |s|
  {
    var v := s[pivot];
    BelowCount(s, v);
    AboveCount(s, v);
    assert s[pivot] in multiset(s);
    PartsSize(s, v);
  }

  /** The list splits into the elements below, equal to and above `v`. */
  lemma {:induction false} PartsSize(s: seq<nat>, v: nat)
    ensures |Below(s, v)| + multiset(s)[v] + |Above(s, v)| == |s|
    decreases |s|
  {
    if s != [] {
      var n := |s| - 1;
      PartsSize(s[..n], v);
      LastSplit(s);
    }
  }

  /** The pivot sits after every smaller element and before every larger one. */
  lemma PickPartitioned(s: seq<nat>, pivot: nat)
    requires pivot < |s|
    ensures var r, k := PickOf(s, pivot), |Below(s, s[pivot])|;
      k < |r| && r[k] == s[pivot]
      && (forall i :: 0 <= i < k ==> r[i] < s[pivot])
      && (forall i :: k < i < |r| ==> r[i] > s[pivot])
  {
    var v := s[pivot];
    BelowBelow(s, v);
    AboveAbove(s, v);
    var r, b := PickOf(s, pivot), Below(s, v);
    forall i | 0 <= i < |b| ensures r[i] < v {
      assert r[i] == b[i];
    }
    forall i | |b| < i < |r| ensures r[i] > v {
      assert r[i] == Above(s, v)[i - |b| - 1];
    }
  }

  lemma {:induction false} BelowBelow(s: seq<nat>, v: nat)
    ensures forall i :: 0 <= i < |Below(s, v)| ==> Below(s, v)[i] < v
    decreases |s|
  {
    if s != [] {
      BelowBelow(s[..|s| - 1], v);
    }
  }

  lemma {:induction false} AboveAbove(s: seq<nat>, v: nat)
    ensures forall i :: 0 <= i < |Above(s, v)| ==> Above(s, v)[i] > v
    decreases |s|
  {
    if s != [] {
      AboveAbove(s[..|s| - 1], v);
    }
  }

  // ---------------------------------------------------------------------------------
  // Moves

  predicate Distinct(ms: seq<seq<nat>>)
  {
    forall i, j :: 0 <= i < j < |ms| ==> ms[i] != ms[j]
  }

  /** `m` is the pick of some pivot below `n`. */
  ghost predicate PickedBefore(s: seq<nat>, m: seq<nat>, n: nat)
  {
    exists p :: 0 <= p < n && p < |s| && PickOf(s, p) == m
  }

  /** What `moves` has built after trying the pivots below `n`: distinct picks, none the
      list itself, exactly the picks of those pivots, in the order of their first pivots. */
  ghost predicate MovesSoFar(s: seq<nat>, res: seq<seq<nat>>, pivots: seq<nat>, n: nat)
  {
    && Distinct(res) && (forall m :: m in res ==> m != s)
    && (forall m :: m in res <==> m != s && PickedBefore(s, m, n))
    && |pivots| == |res|
    && (forall i, j :: 0 <= i < j < |res| ==> pivots[i] < pivots[j])
    && (forall i :: 0 <= i < |res| ==> pivots[i] < n && pivots[i] < |s| && PickOf(s, pivots[i]) == res[i])
    && (forall i, q :: 0 <= i < |res| && 0 <= q < pivots[i] && q < |s| ==> PickOf(s, q) != res[i])
  }

  /** The picks of the pivots below n + 1 are those below n and the pick of n. */
  lemma PickedStep(s: seq<nat>, n: nat)
    requires n < |s|
    ensures forall m :: PickedBefore(s, m, n + 1) <==> PickedBefore(s, m, n) || m == PickOf(s, n)
  {
    forall m | PickedBefore(s, m, n + 1) ensures PickedBefore(s, m, n) || m == PickOf(s, n) {
      var p :| 0 <= p < n + 1 && p < |s| && PickOf(s, p) == m;
      assert p < n ==> PickedBefore(s, m, n);
    }
  }

  /** One pivot more: its pick is appended unless already listed or the list itself. */
  lemma MovesStep(s: seq<nat>, res: seq<seq<nat>>, pivots: seq<nat>, n: nat)
    requires n < |s| && MovesSoFar(s, res, pivots, n)
    ensures var next := PickOf(s, n);
      if next !in res && next != s then MovesSoFar(s, res + [next], pivots + [n], n + 1)
      else MovesSoFar(s, res, pivots, n + 1)
  {
    var next := PickOf(s, n);
    if next !in res && next != s {
      MovesKeep(s, res, pivots, n);
    } else {
      MovesSkip(s, res, pivots, n);
    }
  }

  lemma MovesKeep(s: seq<nat>, res: seq<seq<nat>>, pivots: seq<nat>, n: nat)
    requires n < |s| && MovesSoFar(s, res, pivots, n)
    requires PickOf(s, n) !in res && PickOf(s, n) != s
    ensures MovesSoFar(s, res + [PickOf(s, n)], pivots + [n], n + 1)
  {
    var next := PickOf(s, n);
    var res' := res + [next];
    forall q | 0 <= q < n ensures PickOf(s, q) != next {
      assert PickedBefore(s, PickOf(s, q), n);
    }
    PickedStep(s, n);
  }

  lemma MovesSkip(s: seq<nat>, res: seq<seq<nat>>, pivots: seq<nat>, n: nat)
    requires n < |s| && MovesSoFar(s, res, pivots, n)
    requires PickOf(s, n) in res || PickOf(s, n) == s
    ensures MovesSoFar(s, res, pivots, n + 1)
  {
    PickedStep(s, n);
  }

  /** `moves`: the picks of the pivots in turn, each kept unless it is already listed or
      is the list itself. The result lists each such pick once, in the order of the first
      pivot that gives it; `pivots` are those first pivots. */
  method Moves(s: seq<nat>) returns (res: seq<seq<nat>>, ghost pivots: seq<nat>)
    ensures Distinct(res) && forall m :: m in res ==> m != s
    ensures forall m :: m in res <==> m != s && PickedBefore(s, m, |s|)
    ensures |pivots| == |res|
    ensures forall i, j :: 0 <= i < j < |res| ==> pivots[i] < pivots[j]
    ensures forall i :: 0 <= i < |res| ==> pivots[i] < |s| && PickOf(s, pivots[i]) == res[i]
    ensures forall i, q :: 0 <= i < |res| && 0 <= q < pivots[i] ==> PickOf(s, q) != res[i]
  {
    res, pivots := [], [];
    for pivot := 0 to |s|
      invariant MovesSoFar(s, res, pivots, pivot)
    {
      var next := Pick(s, pivot);
      MovesStep(s, res, pivots, pivot);
      if next !in res && next != s {
        res, pivots := res + [next], pivots + [pivot];
      }
    }
  }

  lemma ConcatLast(a: seq<nat>, b: seq<nat>)
    requires b != []
    ensures (a + b)[..|a + b| - 1] == a + b[..|b| - 1] && (a + b)[|a + b| - 1] == b[|b| - 1]
  {
  }

  /** The smaller part of a concatenation is the concatenation of the smaller parts. */
  lemma {:induction false} BelowConcat(a: seq<nat>, b: seq<nat>, v: nat)
    ensures Below(a + b, v) == Below(a, v) + Below(b, v)
    decreases |b|
  {
    if b == [] {
      assert a + b == a;
      assert Below(a, v) + [] == Below(a, v);
    } else {
      var n := |b| - 1;
      ConcatLast(a, b);
      BelowConcat(a, b[..n], v);
      PartsStep(a + b, v);
      PartsStep(b, v);
      var x := if b[n] < v then [b[n]] else [];
      assert Below(a + b, v) == Below(a, v) + Below(b[..n], v) + x;
      assert Below(a, v) + Below(b[..n], v) + x == Below(a, v) + (Below(b[..n], v) + x);
    }
  }

  /** The larger part of a concatenation is the concatenation of the larger parts. */
  lemma {:induction false} AboveConcat(a: seq<nat>, b: seq<nat>, v: nat)
    ensures Above(a + b, v) == Above(a, v) + Above(b, v)
    decreases |b|
  {
    if b == [] {
      assert a + b == a;
      assert Above(a, v) + [] == Above(a, v);
    } else {
      var n := |b| - 1;
      ConcatLast(a, b);
      AboveConcat(a, b[..n], v);
      PartsStep(a + b, v);
      PartsStep(b, v);
      var x := if b[n] > v then [b[n]] else [];
      assert Above(a + b, v) == Above(a, v) + Above(b[..n], v) + x;
      assert Above(a, v) + Above(b[..n], v) + x == Above(a, v) + (Above(b[..n], v) + x);
    }
  }

  /** A list wholly below `v` is its own smaller part and has no larger part. */
  lemma {:induction false} WhollyBelow(t: seq<nat>, v: nat)
    requires forall i :: 0 <= i < |t| ==> t[i] < v
    ensures Below(t, v) == t && Above(t, v) == []
    decreases |t|
  {
    if t != [] {
      var n := |t| - 1;
      WhollyBelow(t[..n], v);
      PartsStep(t, v);
      LastSplit(t);
    }
  }

  /** A list wholly above `v` is its own larger part and has no smaller part. */
  lemma {:induction false} WhollyAbove(t: seq<nat>, v: nat)
    requires forall i :: 0 <= i < |t| ==> t[i] > v
    ensures Below(t, v) == [] && Above(t, v) == t
    decreases |t|
  {
    if t != [] {
      var n := |t| - 1;
      WhollyAbove(t[..n], v);
      PartsStep(t, v);
      LastSplit(t);
    }
  }

  /** Three lists wholly below, equal to and above `v`, joined, have the first as their
      smaller part and the last as their larger part. */
  lemma JoinedParts(l: seq<nat>, v: nat, r: seq<nat>)
    requires forall i :: 0 <= i < |l| ==> l[i] < v
    requires forall i :: 0 <= i < |r| ==> r[i] > v
    ensures Below(l + [v] + r, v) == l && Above(l + [v] + r, v) == r
  {
    WhollyBelow(l, v);
    WhollyAbove(r, v);
    assert Below([v], v) == [] && Above([v], v) == [] by {
      PartsStep([v], v);
    }
    BelowConcat(l, [v], v);
    AboveConcat(l, [v], v);
    assert Below(l + [v], v) == l + [] == l;
    assert Above(l + [v], v) == [] + [] == [];
    BelowConcat(l + [v], r, v);
    AboveConcat(l + [v], r, v);
    assert Below(l + [v] + r, v) == l + [] == l;
    assert Above(l + [v] + r, v) == [] + r == r;
  }

  predicate StrictlyIncreasing(s: seq<nat>)
  {
    forall i, j :: 0 <= i < j < |s| ==> s[i] < s[j]
  }

  /** A strictly increasing list has no moves: every pick gives the list back. */
  lemma IncreasingNoMoves(s: seq<nat>)
    requires StrictlyIncreasing(s)
    ensures forall p :: 0 <= p < |s| ==> PickOf(s, p) == s
    ensures forall m :: !(m != s && PickedBefore(s, m, |s|))
  {
    forall p | 0 <= p < |s| ensures PickOf(s, p) == s {
      var l, r := s[..p], s[p + 1..];
      assert s == l + [s[p]] + r;
      assert forall i :: 0 <= i < |l| ==> l[i] == s[i];
      assert forall i :: 0 <= i < |r| ==> r[i] == s[p + 1 + i];
      JoinedParts(l, s[p], r);
    }
  }
}

module QuicksortGame {
  import opened Quicksort

  // ---------------------------------------------------------------------------------
  // The termination measure: inversions

  /** How many elements of `s` exceed `x`. */
  function Greater(s: seq<nat>, x: nat): nat
  {
    if s == [] then 0
    else Greater(s[..|s| - 1], x) + (if s[|s| - 1] > x then 1 else 0)
  }

  /** The pairs i < j with s[i] > s[j]. */
  function Inversions(s: seq<nat>): nat
  {
    if s == [] then 0
    else Inversions(s[..|s| - 1]) + Greater(s[..|s| - 1], s[|s| - 1])
  }

  /** Which part of a pick around `v` the value `x` goes to. */
  function Class(x: nat, v: nat): nat
  {
    if x < v then 0 else if x == v then 1 else 2
  }

  /** How many elements of `s` belong to a later part than `x`. */
  function Outranking(s: seq<nat>, x: nat, v: nat): nat
  {
    if s == [] then 0
    else Outranking(s[..|s| - 1], x, v) + (if Class(s[|s| - 1], v) > Class(x, v) then 1 else 0)
  }

  /** The pairs i < j whose elements a pick around `v` puts in the other order. */
  function Cross(s: seq<nat>, v: nat): nat
  {
    if s == [] then 0
    else Cross(s[..|s| - 1], v) + Outranking(s[..|s| - 1], s[|s| - 1], v)
  }

  /** The elements above `x` are those above it in its own part plus those of later
      parts. */
  lemma {:induction false} GreaterSplit(s: seq<nat>, x: nat, v: nat)
    ensures x < v ==> Greater(s, x) == Greater(Below(s, v), x) + Outranking(s, x, v)
    ensures x == v ==> Greater(s, x) == Outranking(s, x, v)
    ensures x > v ==> Greater(s, x) == Greater(Above(s, v), x) + Outranking(s, x, v)
    decreases |s|
  {
    if s != [] {
      var n := |s| - 1;
      GreaterSplit(s[..n], x, v);
      PartsStep(s, v);
      var b, a := Below(s[..n], v), Above(s[..n], v);
      assert (b + [s[n]])[..|b|] == b;
      assert (a + [s[n]])[..|a|] == a;
    }
  }

  /** The inversions of a list are those inside its smaller part, those inside its larger
      part and those across parts. */
  lemma {:induction false} InversionsSplit(s: seq<nat>, v: nat)
    ensures Inversions(s) == Inversions(Below(s, v)) + Inversions(Above(s, v)) + Cross(s, v)
    decreases |s|
  {
    if s != [] {
      var n := |s| - 1;
      InversionsSplit(s[..n], v);
      GreaterSplit(s[..n], s[n], v);
      PartsStep(s, v);
      var b, a := Below(s[..n], v), Above(s[..n], v);
      assert (b + [s[n]])[..|b|] == b;
      assert (a + [s[n]])[..|a|] == a;
    }
  }

  /** The parts come in order: smaller, equal, larger. */
  ghost predicate InPartOrder(s: seq<nat>, v: nat)
  {
    forall i, j :: 0 <= i < j < |s| ==> Class(s[i], v) <= Class(s[j], v)
  }

  lemma {:induction false} OutrankingZero(s: seq<nat>, x: nat, v: nat)
    ensures Outranking(s, x, v) == 0 <==> forall i :: 0 <= i < |s| ==> Class(s[i], v) <= Class(x, v)
    decreases |s|
  {
    if s != [] {
      OutrankingZero(s[..|s| - 1], x, v);
    }
  }

  /** No pair across parts is out of order exactly when the parts come in order. */
  lemma {:induction false} CrossZero(s: seq<nat>, v: nat)
    ensures Cross(s, v) == 0 <==> InPartOrder(s, v)
    decreases |s|
  {
    if s != [] {
      var n := |s| - 1;
      CrossZero(s[..n], v);
      OutrankingZero(s[..n], s[n], v);
      assert forall i :: 0 <= i < n ==> s[..n][i] == s[i];
    }
  }

  /** A list whose parts are already in order around a pivot value occurring once is its
      own pick. */
  lemma OrderedPick(s: seq<nat>, p: nat)
    requires p < |s|
    ensures InPartOrder(s, s[p]) && multiset(s)[s[p]] == 1 ==> PickOf(s, p) == s
  {
    var v := s[p];
    if InPartOrder(s, v) && multiset(s)[v] == 1 {
      var l, r := s[..p], s[p + 1..];
      assert s == l + [v] + r;
      assert v !in multiset(l) && v !in multiset(r) by {
        assert multiset(s) == multiset(l) + multiset{v} + multiset(r);
      }
      forall i | 0 <= i < |l| ensures l[i] < v {
        assert l[i] in multiset(l);
        assert Class(s[i], v) <= Class(s[p], v);
      }
      forall i | 0 <= i < |r| ensures r[i] > v {
        assert r[i] in multiset(r);
        assert Class(s[p], v) <= Class(s[p + 1 + i], v);
      }
      JoinedParts(l, v, r);
    }
  }

  /** A pick is in part order around its pivot. */
  lemma PickInPartOrder(s: seq<nat>, p: nat)
    requires p < |s|
    ensures InPartOrder(PickOf(s, p), s[p])
  {
    var v, m := s[p], PickOf(s, p);
    PickPartitioned(s, p);
    var k := |Below(s, v)|;
    assert forall i :: 0 <= i < |m| ==> Class(m[i], v) == if i < k then 0 else if i == k then 1 else 2;
  }

  /** A pick is in part order around its pivot and keeps both parts. */
  lemma PickParts(s: seq<nat>, p: nat)
    requires p < |s|
    ensures var v, m := s[p], PickOf(s, p);
      Below(m, v) == Below(s, v) && Above(m, v) == Above(s, v) && Cross(m, v) == 0
  {
    var v := s[p];
    BelowBelow(s, v);
    AboveAbove(s, v);
    JoinedParts(Below(s, v), v, Above(s, v));
    PickInPartOrder(s, p);
    CrossZero(PickOf(s, p), v);
  }

  /** `pick` never lengthens the list nor adds inversions, and a pick other than the list
      itself is shorter or has fewer inversions. */
  lemma PickDecreases(s: seq<nat>, p: nat)
    requires p < |s|
    ensures var m := PickOf(s, p);
      |m| <= |s| && Inversions(m) <= Inversions(s)
      && (m != s ==> |m| < |s| || Inversions(m) < Inversions(s))
  {
    var v, m := s[p], PickOf(s, p);
    PickCount(s, p);
    PickParts(s, p);
    InversionsSplit(s, v);
    InversionsSplit(m, v);
    CrossZero(s, v);
    OrderedPick(s, p);
  }

  // ---------------------------------------------------------------------------------
  // The nim value

  /** The options of a position: its picks other than itself. */
  function Options(s: seq<nat>): set<seq<nat>>
  {
    set p | 0 <= p < |s| && PickOf(s, p) != s :: PickOf(s, p)
  }

  /** The options are exactly what `moves` lists, and each is smaller in the measure. */
  lemma OptionsAreMoves(s: seq<nat>)
    ensures forall m :: m in Options(s) <==> m != s && PickedBefore(s, m, |s|)
    ensures forall m :: m in Options(s) ==>
      |m| < |s| || (|m| == |s| && Inversions(m) < Inversions(s))
  {
    forall p | 0 <= p < |s| {
      PickDecreases(s, p);
    }
  }

  /** The least natural number from `k` upwards that is not in `xs`, given that every
      number below `k` is. */
  function MexFrom(xs: set<nat>, k: nat): (r: nat)
    requires forall j :: 0 <= j < k ==> j in xs
    ensures k <= r && r !in xs && forall j :: 0 <= j < r ==> j in xs
    decreases set x | x in xs && x >= k
  {
    if k in xs then
      assert k in (set x | x in xs && x >= k) - (set x | x in xs && x >= k + 1);
      MexFrom(xs, k + 1)
    else k
  }

  /** `Nimber::mex`, taken to be the minimum excludant: the least natural number not
      among the given values. */
  function Mex(xs: set<nat>): (r: nat)
    ensures r !in xs && forall j :: 0 <= j < r ==> j in xs
  {
    MexFrom(xs, 0)
  }

  /** The values of the options of a position. */
  function OptionValues(s: seq<nat>): set<nat>
    decreases |s|, Inversions(s), 0
  {
    OptionsAreMoves(s);
    set m | m in Options(s) :: GameValue(m)
  }

  /** The nim value of a position: the mex of the values of its options. The recursion
      ends because every option is shorter or has fewer inversions. */
  function GameValue(s: seq<nat>): nat
    decreases |s|, Inversions(s), 1
  {
    Mex(OptionValues(s))
  }

  /** The values in a list, as a set. */
  function ValueSet(values: seq<nat>): set<nat>
  {
    set x | x in values
  }

  /** The values computed for the listed moves are the values of the options. */
  lemma MoveValues(s: seq<nat>, moves: seq<seq<nat>>, values: seq<nat>)
    requires forall m :: m in moves <==> m in Options(s)
    requires |values| == |moves| && forall j :: 0 <= j < |moves| ==> values[j] == GameValue(moves[j])
    ensures ValueSet(values) == OptionValues(s)
  {
    forall x | x in values ensures x in OptionValues(s) {
      var j :| 0 <= j < |values| && values[j] == x;
      assert moves[j] in Options(s);
    }
    forall m | m in Options(s) ensures GameValue(m) in values {
      var j :| 0 <= j < |moves| && moves[j] == m;
      assert values[j] == GameValue(m);
    }
  }

  /** `game`: the values of the moves, one recursive call each, then their mex. */
  method Game(s: seq<nat>) returns (g: nat)
    ensures g == GameValue(s)
    decreases |s|, Inversions(s), 1
  {
    var moves, pivots := Moves(s);
    OptionsAreMoves(s);
    var gameMoves := MoveGames(s, moves);
    MoveValues(s, moves, gameMoves);
    g := Mex(ValueSet(gameMoves));
  }

  /** The loop of `game` over the moves of `s`. */
  method MoveGames(s: seq<nat>, moves: seq<seq<nat>>) returns (values: seq<nat>)
    requires forall m :: m in moves ==> |m| < |s| || (|m| == |s| && Inversions(m) < Inversions(s))
    ensures |values| == |moves| && forall j :: 0 <= j < |moves| ==> values[j] == GameValue(moves[j])
    decreases |s|, Inversions(s), 0
  {
    values := [];
    for i := 0 to |moves|
      invariant |values| == i
      invariant forall j :: 0 <= j < i ==> values[j] == GameValue(moves[j])
    {
      assert moves[i] in moves;
      var h := Game(moves[i]);
      values := values + [h];
    }
  }

  /** No option has the value of its position, and every smaller value is the value of
      some option. */
  lemma GameValueMex(s: seq<nat>)
    ensures forall m :: m in Options(s) ==> GameValue(m) != GameValue(s)
    ensures forall j :: 0 <= j < GameValue(s) ==> j in OptionValues(s)
  {
    OptionsAreMoves(s);
  }

  /** A strictly increasing list, having no move, has value 0. */
  lemma IncreasingValue(s: seq<nat>)
    requires StrictlyIncreasing(s)
    ensures GameValue(s) == 0
  {
    IncreasingNoMoves(s);
    OptionsAreMoves(s);
    assert Options(s) == {};
    assert OptionValues(s) == {};
  }
}
