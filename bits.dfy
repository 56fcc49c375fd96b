/** The u64 word that packs a grid, as a natural number below 2^64. Bit `n` of a
    word is `(word >> n) & 1`; shifting right by one place is division by two. */
module Bits {

  /** 2 to the power `n`. */
  function Pow2(n: nat): (r: nat)
    ensures r >= 1
  {
    if n == 0 then 1 else 2 * Pow2(n - 1)
  }

  /** 2^64: one more than the largest u64. */
  const U64_LIMIT: nat := 0x1_0000_0000_0000_0000

  /** u64::MAX, the word with every bit set. */
  const U64_MAX: nat := 0xFFFF_FFFF_FFFF_FFFF

  type U64 = n: nat | n < U64_LIMIT

  lemma {:induction false} Pow2Add(a: nat, b: nat)
    ensures Pow2(a + b) == Pow2(a) * Pow2(b)
  {
    if a > 0 {
      Pow2Add(a - 1, b);
    }
  }

  /** Eight doublings multiply by 256. */
  lemma Pow2Plus8(n: nat)
    ensures Pow2(n + 8) == 256 * Pow2(n)
  {
    assert Pow2(n + 8) == 2 * Pow2(n + 7);
    assert Pow2(n + 7) == 2 * Pow2(n + 6);
    assert Pow2(n + 6) == 2 * Pow2(n + 5);
    assert Pow2(n + 5) == 2 * Pow2(n + 4);
    assert Pow2(n + 4) == 2 * Pow2(n + 3);
    assert Pow2(n + 3) == 2 * Pow2(n + 2);
    assert Pow2(n + 2) == 2 * Pow2(n + 1);
    assert Pow2(n + 1) == 2 * Pow2(n);
  }

  lemma Pow2Of64()
    ensures Pow2(64) == U64_LIMIT
  {
    assert Pow2(8) == 0x100 by { Pow2Plus8(0); }
    assert Pow2(16) == 0x1_0000 by { Pow2Plus8(8); }
    assert Pow2(24) == 0x100_0000 by { Pow2Plus8(16); }
    assert Pow2(32) == 0x1_0000_0000 by { Pow2Plus8(24); }
    assert Pow2(40) == 0x100_0000_0000 by { Pow2Plus8(32); }
    assert Pow2(48) == 0x1_0000_0000_0000 by { Pow2Plus8(40); }
    assert Pow2(56) == 0x100_0000_0000_0000 by { Pow2Plus8(48); }
    Pow2Plus8(56);
  }

  lemma {:induction false} Pow2Monotone(a: nat, b: nat)
    requires a <= b
    ensures Pow2(a) <= Pow2(b)
    decreases b - a
  {
    if a < b {
      Pow2Monotone(a, b - 1);
    }
  }

  /** Bit `n` of `word`: `(word >> n) & 1 == 1`. */
  function Bit(word: nat, n: nat): bool
  {
    if n == 0 then word % 2 == 1 else Bit(word / 2, n - 1)
  }

  /** `word` with bit `n` replaced by `v`: `(word & !(1 << n)) | ((v as u64) << n)`. */
  function SetBit(word: nat, n: nat, v: bool): nat
  {
    if n == 0 then 2 * (word / 2) + (if v then 1 else 0)
    else 2 * SetBit(word / 2, n - 1, v) + word % 2
  }

  /** Writing bit `n` changes bit `n` to `v` and no other bit. */
  lemma {:induction false} BitOfSetBit(word: nat, n: nat, v: bool, m: nat)
    ensures Bit(SetBit(word, n, v), m) == if m == n then v else Bit(word, m)
  {
    if n > 0 && m > 0 {
      BitOfSetBit(word / 2, n - 1, v, m - 1);
    }
  }

  /** Writing a bit below `k` keeps a word below 2^k. */
  lemma {:induction false} SetBitBound(word: nat, n: nat, v: bool, k: nat)
    requires word < Pow2(k) && n < k
    ensures SetBit(word, n, v) < Pow2(k)
  {
    assert word / 2 < Pow2(k - 1);
    if n > 0 {
      SetBitBound(word / 2, n - 1, v, k - 1);
    }
  }

  /** A word below 2^k has no bit set at or above `k`. */
  lemma {:induction false} BitAbove(word: nat, n: nat, k: nat)
    requires word < Pow2(k) && k <= n
    ensures !Bit(word, n)
  {
    if k > 0 {
      BitAbove(word / 2, n - 1, k - 1);
    } else {
      ZeroBit(n);
    }
  }

  /** No bit of 0 is set. */
  lemma {:induction false} ZeroBit(n: nat)
    ensures !Bit(0, n)
  {
    if n > 0 {
      ZeroBit(n - 1);
    }
  }

  /** Two words below 2^k with the same bits below `k` are equal. */
  lemma {:induction false} BitsDetermine(a: nat, b: nat, k: nat)
    requires a < Pow2(k) && b < Pow2(k)
    requires forall n :: 0 <= n < k ==> Bit(a, n) == Bit(b, n)
    ensures a == b
  {
    if k > 0 {
      forall n | 0 <= n < k - 1 ensures Bit(a / 2, n) == Bit(b / 2, n) {
        assert Bit(a, n + 1) == Bit(b, n + 1);
      }
      BitsDetermine(a / 2, b / 2, k - 1);
      assert Bit(a, 0) == Bit(b, 0);
    }
  }

  /** Two u64 words with the same 64 bits are equal. */
  lemma SameBits(a: U64, b: U64)
    requires forall n :: 0 <= n < 64 ==> Bit(a, n) == Bit(b, n)
    ensures a == b
  {
    Pow2Of64();
    BitsDetermine(a, b, 64);
  }

  /** The word 2^k - 1 has exactly the bits below `k` set. */
  lemma {:induction false} BitOfLowMask(k: nat, n: nat)
    ensures Bit(Pow2(k) - 1, n) == (n < k)
  {
    if k == 0 {
      ZeroBit(n);
    } else if n > 0 {
      assert (Pow2(k) - 1) / 2 == Pow2(k - 1) - 1;
      BitOfLowMask(k - 1, n - 1);
    }
  }

  /** Every bit of u64::MAX is set, and no bit of 0 is. */
  lemma MaxAndZeroBits(n: nat)
    requires n < 64
    ensures Bit(U64_MAX, n) && !Bit(0, n)
  {
    Pow2Of64();
    BitOfLowMask(64, n);
    ZeroBit(n);
  }

  /** Every bit of u64::MAX below 64 is set, and no bit of 0 is set. */
  lemma AllBitsOfMaxAndZero()
    ensures forall n :: 0 <= n < 64 ==> Bit(U64_MAX, n)
    ensures forall n :: !Bit(0, n)
  {
    forall n | 0 <= n < 64 ensures Bit(U64_MAX, n) {
      MaxAndZeroBits(n);
    }
    forall n ensures !Bit(0, n) {
      ZeroBit(n);
    }
  }

  /** `bits_to_arr`: the 64 bits of `num`, lowest first, written into a fresh array. */
  method BitsToArr(num: U64) returns (grid: seq<bool>)
    ensures |grid| == 64
    ensures forall i :: 0 <= i < 64 ==> grid[i] == Bit(num, i)
  {
    var arr := new bool[64](_ => false);
    for gridIdx := 0 to 64
      invariant forall i :: 0 <= i < gridIdx ==> arr[i] == Bit(num, i)
    {
      arr[gridIdx] := Bit(num, gridIdx);
    }
    grid := arr[..];
  }

  /** One step of `arr_to_bits`: `res <<= 1; res |= b` on a word below 2^k, k < 64,
      loses no bit and puts `b` in front of the bits of `res`. */
  lemma ShiftIn(res: nat, k: nat, b: bool)
    requires res < Pow2(k) && k < 64
    ensures (res * 2) % U64_LIMIT == res * 2
    ensures res * 2 + (if b then 1 else 0) < Pow2(k + 1) <= U64_LIMIT
    ensures Bit(res * 2 + (if b then 1 else 0), 0) == b
    ensures forall n: nat :: Bit(res * 2 + (if b then 1 else 0), n + 1) == Bit(res, n)
  {
    Pow2Monotone(k + 1, 64);
    Pow2Of64();
    ModOfSmall(res * 2, U64_LIMIT);
    var r := res * 2 + (if b then 1 else 0);
    assert r / 2 == res;
  }

  lemma ModOfSmall(a: nat, m: nat)
    requires a < m
    ensures a % m == a
  {
  }

  /** `arr_to_bits`: bit i of the result is `grid[i]`; it panics on more than 64 cells.
      The loop runs from the last cell down, shifting the accumulator left each time. */
  method ArrToBits(grid: seq<bool>) returns (res: U64)
    requires |grid| <= 64
    ensures forall n :: 0 <= n < 64 ==> Bit(res, n) == (n < |grid| && grid[n])
  {
    res := 0;
    var i := |grid|;
    while i > 0
      invariant 0 <= i <= |grid|
      invariant res < Pow2(|grid| - i)
      invariant forall n :: 0 <= n < |grid| - i ==> Bit(res, n) == grid[i + n]
    {
      i := i - 1;
      ShiftIn(res, |grid| - i - 1, grid[i]);
      ghost var prev := res;
      var shifted := (res * 2) % U64_LIMIT;   // res <<= 1
      res := shifted + (if grid[i] then 1 else 0);   // res |= grid[i] as u64
      forall n | 0 <= n < |grid| - i ensures Bit(res, n) == grid[i + n] {
        if n > 0 {
          assert Bit(res, (n - 1) + 1) == Bit(prev, n - 1);
        }
      }
    }
    forall n | 0 <= n < 64 ensures Bit(res, n) == (n < |grid| && grid[n]) {
      if n >= |grid| {
        BitAbove(res, n, |grid|);
      }
    }
  }

  /** bits_to_arr followed by arr_to_bits gives the number back. */
  method BitsArrRoundTrip(num: U64) returns (back: U64)
    ensures back == num
  {
    var arr := BitsToArr(num);
    back := ArrToBits(arr);
    SameBits(back, num);
  }
}
